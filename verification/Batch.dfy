/** Insertion of the routed records: batches of at most 512 rows of one target, against a table
    with a primary key. */
module Batch {
  import opened Prelude
  import opened Routing

  const INSERT_BATCH_SIZE: nat := 512

  datatype Row = Row(value: Bytes, version: nat)
  type Table = map<Bytes, Row>
  type Tables = map<Bytes, Table>

  /* One row at a time. */

  // The primary key refuses a key that is there already.
  function InsertOne(tables: Tables, r: Routed): Option<Tables> {
    if r.target !in tables || r.key in tables[r.target] then None
    else Some(tables[r.target := tables[r.target][r.key := Row(r.value, 0)]])
  }

  function InsertAll(tables: Tables, rows: seq<Routed>): Option<Tables> {
    if rows == [] then Some(tables)
    else
      var first := InsertOne(tables, rows[0]);
      if first.None? then None else InsertAll(first.value, rows[1..])
  }

  lemma {:induction false} InsertAllAppend(tables: Tables, a: seq<Routed>, b: seq<Routed>)
    ensures InsertAll(tables, a + b)
            == match InsertAll(tables, a) case Some(t) => InsertAll(t, b) case None => None
  {
    if a == [] {
      assert a + b == b;
    } else {
      assert (a + b)[1..] == a[1..] + b;
      var first := InsertOne(tables, a[0]);
      if first.Some? { InsertAllAppend(first.value, a[1..], b); }
    }
  }

  /* What a run of insertions does. */

  predicate NoCollision(rows: seq<Routed>) {
    forall i, j | 0 <= i < j < |rows| :: !(rows[i].target == rows[j].target && rows[i].key == rows[j].key)
  }

  // Every row has a table, and its key is not there yet.
  predicate Fits(tables: Tables, rows: seq<Routed>) {
    forall i | 0 <= i < |rows| :: rows[i].target in tables && rows[i].key !in tables[rows[i].target]
  }

  // The rows of one target, all at version 0.
  function RowsFor(rows: seq<Routed>, target: Bytes): Table {
    if rows == [] then map[]
    else
      var rest := RowsFor(rows[1..], target);
      if rows[0].target == target then rest[rows[0].key := Row(rows[0].value, 0)] else rest
  }

  lemma {:induction false} RowsForKeys(rows: seq<Routed>, target: Bytes)
    ensures forall k :: k in RowsFor(rows, target) <==>
                        exists i :: 0 <= i < |rows| && rows[i].target == target && rows[i].key == k
  {
    if rows != [] {
      var rest := rows[1..];
      RowsForKeys(rest, target);
      forall k ensures k in RowsFor(rows, target) <==>
                       exists i :: 0 <= i < |rows| && rows[i].target == target && rows[i].key == k
      {
        if i :| 0 <= i < |rest| && rest[i].target == target && rest[i].key == k {
          assert rows[i + 1].target == target && rows[i + 1].key == k;
        }
        if i :| 0 <= i < |rows| && rows[i].target == target && rows[i].key == k {
          assert i > 0 ==> rest[i - 1].target == target && rest[i - 1].key == k;
        }
      }
    }
  }

  lemma NoCollisionHead(rows: seq<Routed>)
    requires rows != []
    ensures NoCollision(rows) <==>
            NoCollision(rows[1..])
            && forall i | 0 <= i < |rows[1..]| ::
                 !(rows[1..][i].target == rows[0].target && rows[1..][i].key == rows[0].key)
  {
    var rest := rows[1..];
    assert forall i | 0 <= i < |rest| :: rest[i] == rows[i + 1];
    assert forall i | 1 <= i < |rows| :: rows[i] == rest[i - 1];
  }

  lemma {:induction false} NoCollisionRows(rows: seq<Routed>, i: nat)
    requires NoCollision(rows) && i < |rows|
    ensures rows[i].key in RowsFor(rows, rows[i].target)
    ensures RowsFor(rows, rows[i].target)[rows[i].key] == Row(rows[i].value, 0)
  {
    NoCollisionHead(rows);
    if i > 0 {
      assert rows[i] == rows[1..][i - 1];
      NoCollisionRows(rows[1..], i - 1);
    }
  }

  // As many rows as were routed.
  lemma {:induction false} RowsForSize(rows: seq<Routed>, target: Bytes)
    requires NoCollision(rows)
    ensures |RowsFor(rows, target)| == RoutedTo(rows, target)
  {
    if rows != [] {
      NoCollisionHead(rows);
      RowsForSize(rows[1..], target);
      RowsForKeys(rows[1..], target);
    }
  }

  lemma InsertOneFits(tables: Tables, rows: seq<Routed>)
    requires rows != []
    ensures Fits(tables, rows) && NoCollision(rows) <==>
            InsertOne(tables, rows[0]).Some? && NoCollision(rows[1..])
            && Fits(InsertOne(tables, rows[0]).value, rows[1..])
  {
    NoCollisionHead(rows);
    var rest := rows[1..];
    assert forall i | 0 <= i < |rest| :: rest[i] == rows[i + 1];
    assert forall i | 1 <= i < |rows| :: rows[i] == rest[i - 1];
  }

  // The tables after a run: every table keeps its rows and gains those routed to it.
  ghost predicate Inserted(before: Tables, rows: seq<Routed>, after: Tables) {
    && after.Keys == before.Keys
    && forall t | t in before :: after[t] == before[t] + RowsFor(rows, t)
  }

  lemma InsertedHead(tables: Tables, rows: seq<Routed>, after: Tables)
    requires rows != [] && InsertOne(tables, rows[0]).Some? && Fits(tables, rows) && NoCollision(rows)
    requires Inserted(InsertOne(tables, rows[0]).value, rows[1..], after)
    ensures Inserted(tables, rows, after)
  {
    hide NoCollision, Fits, RowsFor;
    NoCollisionHead(rows);
    forall t | t in tables ensures after[t] == tables[t] + RowsFor(rows, t) {
      InsertedTable(tables, rows, t);
    }
  }

  lemma InsertedTable(tables: Tables, rows: seq<Routed>, t: Bytes)
    requires rows != [] && t in tables && InsertOne(tables, rows[0]).Some?
    requires forall i | 0 <= i < |rows[1..]| ::
               !(rows[1..][i].target == rows[0].target && rows[1..][i].key == rows[0].key)
    ensures InsertOne(tables, rows[0]).value[t] + RowsFor(rows[1..], t) == tables[t] + RowsFor(rows, t)
  {
    var r := rows[0];
    if t == r.target {
      RowsForKeys(rows[1..], t);
      assert r.key !in RowsFor(rows[1..], t);
    }
  }

  // Insertion succeeds exactly when every key is new to an existing table and no two rows share
  // target and key; the tables then hold exactly their old rows and the routed ones.
  lemma {:induction false} InsertAllMeaning(tables: Tables, rows: seq<Routed>)
    ensures InsertAll(tables, rows).Some? <==> Fits(tables, rows) && NoCollision(rows)
    ensures InsertAll(tables, rows).Some? ==> Inserted(tables, rows, InsertAll(tables, rows).value)
    decreases rows
  {
    hide NoCollision, Fits, Inserted, RowsFor;
    if rows == [] {
      NothingInserted(tables);
    } else {
      InsertOneFits(tables, rows);
      var first := InsertOne(tables, rows[0]);
      if first.Some? {
        InsertAllMeaning(first.value, rows[1..]);
        if InsertAll(tables, rows).Some? { InsertedHead(tables, rows, InsertAll(tables, rows).value); }
      }
    }
  }

  lemma NothingInserted(tables: Tables)
    ensures Fits(tables, []) && NoCollision([]) && Inserted(tables, [], tables)
  {
    forall t | t in tables ensures tables[t] == tables[t] + RowsFor([], t) {
    }
  }

  /* Batches. */

  // The open database transaction: what it sees.
  class Transaction {
    var tables: Tables

    constructor (committed: Tables)
      ensures tables == committed
    {
      tables := committed;
    }
  }

  function Pending(target: Bytes, keys: seq<Bytes>, values: seq<Bytes>): (rows: seq<Routed>)
    requires |keys| == |values|
    ensures |rows| == |keys|
    ensures forall i :: 0 <= i < |keys| ==> rows[i] == Routed(target, keys[i], values[i])
  {
    if keys == [] then [] else [Routed(target, keys[0], values[0])] + Pending(target, keys[1..], values[1..])
  }

  class StateBatch {
    const tx: Transaction
    var target: Bytes
    var keys: seq<Bytes>
    var values: seq<Bytes>

    constructor (tx: Transaction)
      ensures this.tx == tx && target == [] && keys == [] && values == []
    {
      this.tx, target, keys, values := tx, [], [], [];
    }

    ghost predicate Valid()
      reads this
    {
      |keys| == |values| <= INSERT_BATCH_SIZE
    }

    ghost function Rows(): seq<Routed>
      reads this
      requires Valid()
    {
      Pending(target, keys, values)
    }

    // One statement inserts the whole batch or fails.
    method Flush() returns (ok: bool)
      requires Valid()
      modifies this, tx
      ensures target == old(target)
      ensures ok <==> InsertAll(old(tx.tables), old(Rows())).Some?
      ensures ok ==> Valid() && keys == [] && InsertAll(old(tx.tables), old(Rows())) == Some(tx.tables)
    {
      if keys == [] { return true; }
      var result := InsertAll(tx.tables, Pending(target, keys, values));
      if result.None? { return false; }
      tx.tables := result.value;
      keys, values := [], [];
      return true;
    }

    // The callback of the insertion walk.
    method Add(r: Routed) returns (ok: bool)
      requires Valid() && |keys| < INSERT_BATCH_SIZE && r.target != []
      requires keys != [] ==> target != []
      modifies this, tx
      ensures ok <==> InsertAll(old(tx.tables), if old(keys) != [] && old(target) != r.target then old(Rows())
                                                else if |old(keys)| + 1 == 512 then old(Rows()) + [r]
                                                else []).Some?
      ensures ok ==> Valid() && |keys| < 512 && target == r.target
      ensures ok ==> exists flushed :: flushed + Rows() == old(Rows()) + [r]
                                       && InsertAll(old(tx.tables), flushed) == Some(tx.tables)
    {
      ghost var start, before := tx.tables, Rows();
      ghost var flushed: seq<Routed> := [];
      if target != [] && target != r.target {
        if keys != [] { flushed := before; }
        ok := Flush();
        if !ok { return; }
      }
      assert flushed + Rows() == before;
      assert keys == [] || target == r.target;
      ghost var kept, tables := Rows(), tx.tables;
      target := r.target;
      keys, values := keys + [r.key], values + [r.value];
      assert Rows() == kept + [r];
      assert flushed + Rows() == before + [r];
      if |keys| == INSERT_BATCH_SIZE {
        ghost var rows := Rows();
        InsertAllAppend(start, flushed, rows);
        ok := Flush();
        if !ok { return; }
        assert (flushed + rows) + Rows() == before + [r];
        return true;
      }
      assert InsertAll(start, flushed) == Some(tx.tables);
      return true;
    }
  }

  predicate RealTargets(rows: seq<Routed>) {
    forall i | 0 <= i < |rows| :: rows[i].target != []
  }

  // What is pending after the walk of `routed[..i]` and the next record, when it cannot be inserted.
  lemma InsertFails(start: Tables, flushed: seq<Routed>, tables: Tables, rows: seq<Routed>, next: seq<Routed>,
                    routed: seq<Routed>, i: nat)
    requires i < |routed| && flushed + rows == routed[..i] && next in {rows, rows + [routed[i]], []}
    requires InsertAll(start, flushed) == Some(tables) && InsertAll(tables, next).None?
    ensures InsertAll(start, routed).None?
  {
    hide InsertOne;
    var done := flushed + next;
    assert flushed + (rows + [routed[i]]) == (flushed + rows) + [routed[i]] == routed[..i + 1];
    assert done <= routed[..i + 1];
    assert routed == done + routed[|done|..];
    InsertAllAppend(start, flushed, next);
    InsertAllAppend(start, done, routed[|done|..]);
  }

  // After the next record: more is flushed, and the rest is pending.
  lemma InsertMore(start: Tables, flushed: seq<Routed>, tables: Tables, rows: seq<Routed>, more: seq<Routed>,
                   pending: seq<Routed>, routed: seq<Routed>, i: nat)
    requires i < |routed| && flushed + rows == routed[..i] && more + pending == rows + [routed[i]]
    requires InsertAll(start, flushed) == Some(tables)
    ensures (flushed + more) + pending == routed[..i + 1]
    ensures InsertAll(start, flushed + more) == InsertAll(tables, more)
  {
    hide InsertOne;
    InsertAllAppend(start, flushed, more);
    assert (flushed + more) + pending == flushed + (more + pending) == (flushed + rows) + [routed[i]];
  }

  // The insertion walk and the last flush: the same as inserting one record at a time. What has
  // been flushed and what is pending are always the records walked so far.
  method InsertRouted(tx: Transaction, routed: seq<Routed>) returns (ok: bool)
    requires RealTargets(routed)
    modifies tx
    ensures ok <==> InsertAll(old(tx.tables), routed).Some?
    ensures ok ==> InsertAll(old(tx.tables), routed) == Some(tx.tables)
  {
    hide InsertAll, InsertOne, Pending, StateBatch.Rows;
    var batch := new StateBatch(tx);
    ghost var start, flushed: seq<Routed> := tx.tables, [];
    NoneInserted(batch);
    for i := 0 to |routed|
      invariant batch.Valid() && |batch.keys| < INSERT_BATCH_SIZE && (batch.keys != [] ==> batch.target != [])
      invariant batch.tx == tx && fresh(batch)
      invariant flushed + batch.Rows() == routed[..i]
      invariant InsertAll(start, flushed) == Some(tx.tables)
    {
      ghost var tables, rows, target, keys := tx.tables, batch.Rows(), batch.target, batch.keys;
      ok := batch.Add(routed[i]);
      if !ok {
        ghost var next := if keys != [] && target != routed[i].target then rows
                          else if |keys| + 1 == INSERT_BATCH_SIZE then rows + [routed[i]] else [];
        InsertFails(start, flushed, tables, rows, next, routed, i);
        return;
      }
      ghost var more :| more + batch.Rows() == rows + [routed[i]] && InsertAll(tables, more) == Some(tx.tables);
      InsertMore(start, flushed, tables, rows, more, batch.Rows(), routed, i);
      flushed := flushed + more;
    }
    assert routed[..|routed|] == routed;
    InsertAllAppend(start, flushed, batch.Rows());
    ok := batch.Flush();
  }

  lemma NoneInserted(batch: StateBatch)
    requires batch.Valid() && batch.keys == []
    ensures [] + batch.Rows() == [] && forall tables :: InsertAll(tables, []) == Some(tables)
  {
  }
}
