/**
 * The contents of the key-value store's tables, as values.
 *
 * A plain table holds one value per key, keys in ascending order (keys are encoded
 * big-endian, so byte order is numeric order). A dup-sorted table holds several values
 * per key; each value starts with a subkey, and the duplicates of one key are kept in
 * byte order of their encoding, which for fixed-width big-endian fields is the
 * lexicographic order on (subkey, value). A dup-sorted table is modelled as the flat
 * list of its (key, subkey, value) entries in that order; a subkey is one or two
 * words (`lo` is 0 for tables whose subkey is a single word).
 */
module Tables {
  import opened Wrappers

  // ----- Plain tables -----

  datatype Row<V> = Row(key: nat, value: V)

  predicate KeysIncreasing<V>(rows: seq<Row<V>>) {
    forall i, j :: 0 <= i < j < |rows| ==> rows[i].key < rows[j].key
  }

  type PlainRows<V> = rows: seq<Row<V>> | KeysIncreasing(rows) witness []

  /** The index of the first row whose key is at least `k`, or `|rows|`: where a range seek lands. */
  function LowerBound<V>(rows: PlainRows<V>, k: nat): (i: nat)
    ensures i <= |rows|
    ensures forall j :: 0 <= j < i ==> rows[j].key < k
    ensures forall j :: i <= j < |rows| ==> rows[j].key >= k
  {
    if |rows| == 0 || rows[0].key >= k then 0
    else
      var rest: PlainRows<V> := rows[1..];
      1 + LowerBound(rest, k)
  }

  /** A point lookup (`get`, or a cursor's `set`). */
  function Get<V>(rows: PlainRows<V>, k: nat): (r: Option<V>)
    ensures r.Some? <==> exists i :: 0 <= i < |rows| && rows[i].key == k
    ensures forall i :: 0 <= i < |rows| && rows[i].key == k ==> r == Some(rows[i].value)
  {
    var i := LowerBound(rows, k);
    if i < |rows| && rows[i].key == k then Some(rows[i].value) else None
  }

  /** Two tables holding the same rows outside key `k` agree on every other key. */
  lemma GetAgreesOutside<V>(rows: PlainRows<V>, r: PlainRows<V>, k: nat)
    requires forall x: Row<V> :: x.key != k ==> (x in rows <==> x in r)
    ensures forall k' :: k' != k ==> Get(r, k') == Get(rows, k')
  {
    forall k' | k' != k ensures Get(r, k') == Get(rows, k') {
      if Get(rows, k').Some? {
        var j :| 0 <= j < |rows| && rows[j].key == k';
        assert rows[j] in r;
      }
    }
  }

  /** Overwriting the row at `i` keeps the order and changes only that row. */
  lemma ReplaceRow<V>(rows: PlainRows<V>, i: nat, v: V)
    requires i < |rows|
    ensures KeysIncreasing(rows[i := Row(rows[i].key, v)])
    ensures forall x: Row<V> :: x.key != rows[i].key ==> (x in rows <==> x in rows[i := Row(rows[i].key, v)])
  {
    var r := rows[i := Row(rows[i].key, v)];
    forall x: Row<V> | x.key != rows[i].key ensures x in rows <==> x in r {
      if x in rows {
        var j :| 0 <= j < |rows| && rows[j] == x;
        assert r[j] == x;
      }
      if x in r {
        var j :| 0 <= j < |r| && r[j] == x;
        assert rows[j] == x;
      }
    }
  }

  /** Inserting a row between the smaller and the larger keys keeps the order and adds only that row. */
  lemma InsertRow<V>(rows: PlainRows<V>, i: nat, k: nat, v: V)
    requires i <= |rows|
    requires forall j :: 0 <= j < i ==> rows[j].key < k
    requires forall j :: i <= j < |rows| ==> rows[j].key > k
    ensures KeysIncreasing(rows[..i] + [Row(k, v)] + rows[i..])
    ensures forall x: Row<V> :: x.key != k ==> (x in rows <==> x in rows[..i] + [Row(k, v)] + rows[i..])
  {
    var r := rows[..i] + [Row(k, v)] + rows[i..];
    assert forall j :: 0 <= j < i ==> r[j] == rows[j];
    assert r[i] == Row(k, v);
    assert forall j :: i < j < |r| ==> r[j] == rows[j - 1];
    forall x: Row<V> | x.key != k ensures x in rows <==> x in r {
      if x in rows {
        var j :| 0 <= j < |rows| && rows[j] == x;
        assert r[if j < i then j else j + 1] == x;
      }
    }
  }

  /** Removing the row at `i` keeps the order and removes only that row. */
  lemma RemoveRow<V>(rows: PlainRows<V>, i: nat)
    requires i < |rows|
    ensures KeysIncreasing(rows[..i] + rows[i + 1..])
    ensures forall x: Row<V> :: x.key != rows[i].key ==> (x in rows <==> x in rows[..i] + rows[i + 1..])
  {
    var r := rows[..i] + rows[i + 1..];
    assert forall j :: 0 <= j < |r| ==> r[j] == if j < i then rows[j] else rows[j + 1];
    forall x: Row<V> | x.key != rows[i].key ensures x in rows <==> x in r {
      if x in rows {
        var j :| 0 <= j < |rows| && rows[j] == x;
        assert j != i;
        assert r[if j < i then j else j - 1] == x;
      }
    }
  }

  /** The table with the value at row `i` replaced. */
  function Replaced<V>(rows: PlainRows<V>, i: nat, v: V): (r: PlainRows<V>)
    requires i < |rows|
    ensures |r| == |rows| && r[i] == Row(rows[i].key, v)
    ensures forall k' :: k' != rows[i].key ==> Get(r, k') == Get(rows, k')
  {
    ReplaceRow(rows, i, v);
    var r: PlainRows<V> := rows[i := Row(rows[i].key, v)];
    GetAgreesOutside(rows, r, rows[i].key);
    r
  }

  /** The table with the row for the new key `k` inserted at `i`. */
  function Inserted<V>(rows: PlainRows<V>, i: nat, k: nat, v: V): (r: PlainRows<V>)
    requires i <= |rows|
    requires forall j :: 0 <= j < i ==> rows[j].key < k
    requires forall j :: i <= j < |rows| ==> rows[j].key > k
    ensures |r| == |rows| + 1 && r[i] == Row(k, v)
    ensures forall k' :: k' != k ==> Get(r, k') == Get(rows, k')
  {
    InsertRow(rows, i, k, v);
    var r: PlainRows<V> := rows[..i] + [Row(k, v)] + rows[i..];
    GetAgreesOutside(rows, r, k);
    r
  }

  /** `put` / `upsert` on a plain table: insert the key in order, or overwrite its value. */
  function Put<V>(rows: PlainRows<V>, k: nat, v: V): (r: PlainRows<V>)
    ensures Get(r, k) == Some(v)
    ensures forall k' :: k' != k ==> Get(r, k') == Get(rows, k')
    ensures |r| == if Get(rows, k).Some? then |rows| else |rows| + 1
    ensures LowerBound(rows, k) < |r| && r[LowerBound(rows, k)] == Row(k, v)
  {
    var i := LowerBound(rows, k);
    if i < |rows| && rows[i].key == k then
      Replaced(rows, i, v)
    else
      Inserted(rows, i, k, v)
  }

  /** A put of a new key inserts its row at the key's lower bound. */
  lemma PutNewKey<V>(rows: PlainRows<V>, k: nat, v: V)
    requires Get(rows, k).None?
    ensures Put(rows, k, v) == rows[..LowerBound(rows, k)] + [Row(k, v)] + rows[LowerBound(rows, k)..]
  {
  }

  /** A put of a key above every stored key appends its row. */
  lemma PutAfterLast<V>(rows: PlainRows<V>, k: nat, v: V)
    requires forall j :: 0 <= j < |rows| ==> rows[j].key < k
    ensures Put(rows, k, v) == rows + [Row(k, v)]
  {
    PutNewKey(rows, k, v);
    assert LowerBound(rows, k) == |rows|;
    assert rows[..|rows|] == rows;
  }

  /** `delete` of a key on a plain table (absent keys are left alone). */
  function Delete<V>(rows: PlainRows<V>, k: nat): (r: PlainRows<V>)
    ensures Get(r, k) == None
    ensures forall k' :: k' != k ==> Get(r, k') == Get(rows, k')
    ensures |r| == if Get(rows, k).Some? then |rows| - 1 else |rows|
  {
    var i := LowerBound(rows, k);
    if i < |rows| && rows[i].key == k then
      RemoveRow(rows, i);
      var r: PlainRows<V> := rows[..i] + rows[i + 1..];
      GetAgreesOutside(rows, r, k);
      assert forall j :: 0 <= j < |r| ==> r[j] == if j < i then rows[j] else rows[j + 1];
      r
    else rows
  }

  // ----- Dup-sorted tables -----

  datatype SubKey = SubKey(hi: nat, lo: nat)

  datatype DupEntry = DupEntry(key: nat, sub: SubKey, value: nat)

  predicate SubLess(a: SubKey, b: SubKey) {
    a.hi < b.hi || (a.hi == b.hi && a.lo < b.lo)
  }

  /** The storage order: by key, then by subkey, then by the rest of the value. */
  predicate EntryLess(a: DupEntry, b: DupEntry) {
    || a.key < b.key
    || (a.key == b.key && SubLess(a.sub, b.sub))
    || (a.key == b.key && a.sub == b.sub && a.value < b.value)
  }

  predicate DupSorted(rows: seq<DupEntry>) {
    forall i, j :: 0 <= i < j < |rows| ==> EntryLess(rows[i], rows[j])
  }

  type DupRows = rows: seq<DupEntry> | DupSorted(rows) witness []

  function Elems(rows: seq<DupEntry>): set<DupEntry> {
    set e | e in rows
  }

  /** At most one value is stored under each (key, subkey). */
  predicate UniqueSubkeys(s: set<DupEntry>) {
    forall a, b :: a in s && b in s && a.key == b.key && a.sub == b.sub ==> a == b
  }

  /** The index of the first entry that is not below `e`, or `|rows|`. */
  function DupLowerBound(rows: DupRows, e: DupEntry): (i: nat)
    ensures i <= |rows|
    ensures forall j :: 0 <= j < i ==> EntryLess(rows[j], e)
    ensures forall j :: i <= j < |rows| ==> !EntryLess(rows[j], e)
  {
    if |rows| == 0 || !EntryLess(rows[0], e) then 0
    else
      var rest: DupRows := rows[1..];
      1 + DupLowerBound(rest, e)
  }

  /**
   * `put` / `upsert` on a dup-sorted table: the entry joins the key's duplicates at its
   * place in the order; it replaces nothing, so an entry with the same subkey and a
   * different value stays. An identical entry is stored once.
   */
  function DupInsert(rows: DupRows, e: DupEntry): (r: DupRows)
    ensures Elems(r) == Elems(rows) + {e}
    ensures |r| == if e in rows then |rows| else |rows| + 1
    ensures DupLowerBound(rows, e) < |r| && r[DupLowerBound(rows, e)] == e
  {
    var i := DupLowerBound(rows, e);
    if i < |rows| && rows[i] == e then rows
    else
      InsertSorted(rows, i, e);
      InsertElems(rows, i, e);
      rows[..i] + [e] + rows[i..]
  }

  /** Placing `e` at its lower bound keeps the rows sorted, and `e` was not among them. */
  lemma InsertSorted(rows: DupRows, i: nat, e: DupEntry)
    requires i == DupLowerBound(rows, e)
    requires i < |rows| ==> rows[i] != e
    ensures DupSorted(rows[..i] + [e] + rows[i..])
    ensures e !in rows
  {
    var r := rows[..i] + [e] + rows[i..];
    assert forall j :: 0 <= j < |r| ==> r[j] == if j < i then rows[j] else if j == i then e else rows[j - 1];
    forall j | i <= j < |rows|
      ensures EntryLess(e, rows[j])
    {
      assert !EntryLess(rows[j], e);
      if j > i {
        assert EntryLess(rows[i], rows[j]);
      }
    }
  }

  /** Placing `e` among the rows adds exactly `e` to their entries. */
  lemma InsertElems(rows: seq<DupEntry>, i: nat, e: DupEntry)
    requires i <= |rows|
    ensures Elems(rows[..i] + [e] + rows[i..]) == Elems(rows) + {e}
  {
    var r := rows[..i] + [e] + rows[i..];
    forall x ensures x in r <==> x in rows || x == e {
      if x in rows {
        var j :| 0 <= j < |rows| && rows[j] == x;
        assert r[if j < i then j else j + 1] == x;
      }
      if x in r && x != e {
        var j :| 0 <= j < |r| && r[j] == x;
        assert rows[if j < i then j else j - 1] == x;
      }
    }
  }

  /** Removes the entry at index `i` (a cursor's `delete_current`). */
  function RemoveAt(rows: DupRows, i: nat): (r: DupRows)
    requires i < |rows|
    ensures Elems(r) == Elems(rows) - {rows[i]}
    ensures |r| == |rows| - 1
    ensures forall j :: 0 <= j < |r| ==> r[j] == if j < i then rows[j] else rows[j + 1]
  {
    var r := rows[..i] + rows[i + 1..];
    assert forall j :: 0 <= j < |r| ==> r[j] == if j < i then rows[j] else rows[j + 1];
    assert DupSorted(r);
    assert Elems(r) == Elems(rows) - {rows[i]} by {
      forall x ensures x in r <==> x in rows && x != rows[i] {
        if x in rows && x != rows[i] {
          var j :| 0 <= j < |rows| && rows[j] == x;
          assert r[if j < i then j else j - 1] == x;
        }
        if x in r {
          var j :| 0 <= j < |r| && r[j] == x;
          var k := if j < i then j else j + 1;
          assert rows[k] == x && k != i;
          assert k < i ==> EntryLess(rows[k], rows[i]);
          assert k > i ==> EntryLess(rows[i], rows[k]);
        }
      }
    }
    r
  }

  /** Whether `e` is a duplicate of `key` whose subkey is at least `sub`. */
  predicate AtOrAfter(e: DupEntry, key: nat, sub: SubKey) {
    e.key == key && !SubLess(e.sub, sub)
  }

  /**
   * Where `seek_by_key_subkey(key, sub)` lands: the first duplicate of exactly `key`
   * whose subkey is at least `sub`; `|rows|` when the key has no such duplicate (the
   * seek never moves on to the next key).
   */
  function SeekDup(rows: DupRows, key: nat, sub: SubKey): (i: nat)
    ensures i <= |rows|
    ensures i < |rows| ==> AtOrAfter(rows[i], key, sub)
    ensures forall j :: 0 <= j < |rows| && AtOrAfter(rows[j], key, sub) ==> i <= j
  {
    if |rows| == 0 then 0
    else if AtOrAfter(rows[0], key, sub) then 0
    else
      var rest: DupRows := rows[1..];
      1 + SeekDup(rest, key, sub)
  }

  /** The entry `seek_by_key_subkey` returns, if any. */
  function SeekByKeySubkey(rows: DupRows, key: nat, sub: SubKey): (r: Option<DupEntry>)
    ensures r.Some? <==> exists e :: e in rows && AtOrAfter(e, key, sub)
    ensures r.Some? ==> r.value in rows && AtOrAfter(r.value, key, sub)
    ensures r.Some? ==> forall e :: e in rows && AtOrAfter(e, key, sub) ==> r.value == e || EntryLess(r.value, e)
  {
    var i := SeekDup(rows, key, sub);
    if i < |rows| then
      assert forall e :: e in rows && AtOrAfter(e, key, sub) ==> rows[i] == e || EntryLess(rows[i], e) by {
        forall e | e in rows && AtOrAfter(e, key, sub) ensures rows[i] == e || EntryLess(rows[i], e) {
          var j :| 0 <= j < |rows| && rows[j] == e;
        }
      }
      Some(rows[i])
    else None
  }

  /**
   * With at most one value per (key, subkey), seeking an exact subkey finds the stored
   * entry exactly when there is one.
   */
  lemma {:induction false} SeekExact(rows: DupRows, key: nat, sub: SubKey)
    requires UniqueSubkeys(Elems(rows))
    ensures forall v :: DupEntry(key, sub, v) in rows ==> SeekByKeySubkey(rows, key, sub) == Some(DupEntry(key, sub, v))
  {
    forall v | DupEntry(key, sub, v) in rows
      ensures SeekByKeySubkey(rows, key, sub) == Some(DupEntry(key, sub, v))
    {
      var target := DupEntry(key, sub, v);
      assert AtOrAfter(target, key, sub);
      assert target in Elems(rows);
    }
  }

  /** The index just past the run of `key`'s duplicates that starts at `from`. */
  function GroupEnd(rows: DupRows, key: nat, from: nat): (end: nat)
    requires from <= |rows|
    ensures from <= end <= |rows|
    ensures forall j :: from <= j < end ==> rows[j].key == key
    ensures end < |rows| ==> rows[end].key != key
    decreases |rows| - from
  {
    if from == |rows| || rows[from].key != key then from else GroupEnd(rows, key, from + 1)
  }
}
