/**
 * `RowBatcher` (src/relstorage/adapters/batch.py): buffers row deletes and
 * inserts for one cursor and writes them as a few multi-row statements.
 *
 * The cursor is the batcher's `log`, an append-only list of
 * `(statement text, flat parameter list)` pairs.  Deletes are grouped by
 * `(table, sorted column names)` and kept as a set of value tuples; inserts
 * are grouped by `(command, header, row_schema, suffix)` and kept as a dict
 * from row key to row, so a later row with the same key replaces the earlier
 * one.  A flush writes every delete group, then every insert group, and resets
 * the per-flush counters.
 */
module Batch {
  import opened Base
  import opened Strings
  import opened Ordering
  import Dict

  /** `RowBatcher.row_limit` */
  const DefaultRowLimit: int := 100
  /** `RowBatcher.size_limit`, `1 << 20` */
  const DefaultSizeLimit: int := 0x10_0000

  /** The tuple of column values of one buffered row, or the row key of an insert. */
  type Row = seq<Value>

  /** The key of `self.deletes`: `(table, tuple(sorted(kw)))`. */
  datatype DeleteKey = DeleteKey(table: string, columns: seq<string>)

  /** The key of `self.inserts`: `(command, header, row_schema, suffix)`. */
  datatype InsertKey = InsertKey(command: string, header: string, rowSchema: string, suffix: string)

  /** One entry of `self.deletes`; Python keeps the rows in a `set`. */
  type DeleteGroup = (DeleteKey, seq<Row>)

  /** One entry of `self.inserts`: `{rowkey: row}`. */
  type InsertGroup = (InsertKey, Dict.Dict<Row, Row>)

  datatype Batcher = Batcher(
    rowLimit: int,
    sizeLimit: int,
    deletePlaceholder: string,
    totalRowsInserted: nat,
    totalSizeInserted: nat,
    totalRowsDeleted: nat,
    rowsAdded: nat,
    sizeAdded: nat,
    deletes: Dict.Dict<DeleteKey, seq<Row>>,
    inserts: Dict.Dict<InsertKey, Dict.Dict<Row, Row>>,
    log: seq<Stmt>)

  /** Every delete group names at least one column, holds at least one row, no row twice, each as wide as the columns. */
  ghost predicate ValidDeleteGroup(g: DeleteGroup)
  {
    && |g.0.columns| > 0
    && |g.1| > 0
    && (forall j, k :: 0 <= j < k < |g.1| ==> g.1[j] != g.1[k])
    && (forall j :: 0 <= j < |g.1| ==> |g.1[j]| == |g.0.columns|)
  }

  /** The shape the buffers keep between calls. */
  ghost predicate Valid(b: Batcher)
  {
    && (forall i :: 0 <= i < |b.deletes| ==> ValidDeleteGroup(b.deletes[i]))
    && (forall i :: 0 <= i < |b.inserts| ==> |b.inserts[i].1| > 0)
  }

  /** `RowBatcher(cursor, row_limit, delete_placeholder)` */
  function NewBatcher(rowLimit: Option<int>, deletePlaceholder: string): (b: Batcher)
    ensures Valid(b)
    ensures b.rowLimit == (if rowLimit.Some? then rowLimit.value else DefaultRowLimit)
    ensures b.sizeLimit == DefaultSizeLimit
    ensures b.rowsAdded == 0 && b.sizeAdded == 0 && b.deletes == [] && b.inserts == [] && b.log == []
    ensures b.totalRowsInserted == 0 && b.totalSizeInserted == 0 && b.totalRowsDeleted == 0
  {
    Batcher(
      if rowLimit.Some? then rowLimit.value else DefaultRowLimit,
      DefaultSizeLimit, deletePlaceholder, 0, 0, 0, 0, 0, [], [], [])
  }

  // ---------------------------------------------------------------- counting

  /** The sum of `f` over a list. */
  function SumOf<T>(s: seq<T>, f: T -> nat): nat
  {
    if |s| == 0 then 0 else f(s[0]) + SumOf(s[1..], f)
  }

  lemma {:induction false} SumOfAppend<T>(a: seq<T>, b: seq<T>, f: T -> nat)
    ensures SumOf(a + b, f) == SumOf(a, f) + SumOf(b, f)
  {
    if |a| == 0 {
      assert a + b == b;
    } else {
      assert (a + b)[1..] == a[1..] + b;
      SumOfAppend(a[1..], b, f);
    }
  }

  /** Dropping the element at `k` removes one copy of it from the multiset. */
  lemma MultisetRemoveAt<T>(b: seq<T>, k: nat)
    requires k < |b|
    ensures multiset(b[..k] + b[k + 1..]) == multiset(b) - multiset{b[k]}
  {
    assert b == b[..k] + [b[k]] + b[k + 1..];
  }

  /** Dropping the element at `k` takes its value off the sum. */
  lemma SumOfRemoveAt<T>(b: seq<T>, k: nat, f: T -> nat)
    requires k < |b|
    ensures SumOf(b, f) == f(b[k]) + SumOf(b[..k] + b[k + 1..], f)
  {
    assert b == b[..k] + ([b[k]] + b[k + 1..]);
    SumOfAppend(b[..k], [b[k]] + b[k + 1..], f);
    SumOfAppend(b[..k], b[k + 1..], f);
    assert ([b[k]] + b[k + 1..])[1..] == b[k + 1..];
  }

  /** Reordering a list does not change its sum. */
  lemma {:induction false} SumOfPermutation<T>(a: seq<T>, b: seq<T>, f: T -> nat)
    requires multiset(a) == multiset(b)
    ensures SumOf(a, f) == SumOf(b, f)
    decreases |a|
  {
    if |a| > 0 {
      assert a[0] in multiset(b);
      var k :| 0 <= k < |b| && b[k] == a[0];
      var rest := b[..k] + b[k + 1..];
      MultisetRemoveAt(b, k);
      assert a == [a[0]] + a[1..];
      assert multiset(a[1..]) == multiset(rest);
      SumOfPermutation(a[1..], rest, f);
      SumOfRemoveAt(b, k, f);
    }
  }

  function DeleteGroupSize(g: DeleteGroup): nat { |g.1| }

  function InsertGroupSize(g: InsertGroup): nat { |g.1| }

  /** The number of distinct rows waiting to be deleted. */
  function PendingDeleteRows(b: Batcher): nat
  {
    SumOf(b.deletes, DeleteGroupSize)
  }

  /** The number of distinct row keys waiting to be inserted. */
  function PendingInsertRows(b: Batcher): nat
  {
    SumOf(b.inserts, InsertGroupSize)
  }

  // ---------------------------------------------------------------- statement text

  /** `','.join([placeholder] * n)`: the list inside `IN (...)`. */
  function PlaceholderList(placeholder: string, n: nat): string
  {
    Join(",", Repeat(placeholder, n))
  }

  /** `_make_single_column_query`: `CMD FROM table WHERE col IN (p,...,p)` with `n` placeholders. */
  function SingleColumnQuery(command: string, table: string, column: string, n: nat, placeholder: string): string
  {
    command + " FROM " + table + " WHERE " + column + " IN (" + PlaceholderList(placeholder, n) + ")"
  }

  /** `(c1=p AND c2=p ...)`: the condition matching one row. */
  function RowTemplate(columns: seq<string>, placeholder: string): string
  {
    "(" + Join(" AND ", seq(|columns|, i requires 0 <= i < |columns| => columns[i] + "=" + placeholder)) + ")"
  }

  /** The multi-column branch of `_do_batch`: one row condition per row, joined by ` OR `. */
  function MultiColumnQuery(command: string, table: string, columns: seq<string>, n: nat, placeholder: string): string
  {
    command + " FROM " + table + " WHERE " + Join(" OR ", Repeat(RowTemplate(columns, placeholder), n))
  }

  /** The statement `_do_batch` writes for one `(table, columns), rows` descriptor. */
  function BatchStatement(command: string, g: DeleteGroup, placeholder: string, suffix: string): (s: Stmt)
    ensures s.params == Flatten(g.1)
  {
    var text :=
      if |g.0.columns| == 1 then SingleColumnQuery(command, g.0.table, g.0.columns[0], |g.1|, placeholder)
      else MultiColumnQuery(command, g.0.table, g.0.columns, |g.1|, placeholder);
    Stmt(text + suffix, Flatten(g.1))
  }

  /** `_do_batch(command, descriptors)`: one statement per descriptor and the number of rows they cover. */
  function DoBatch(command: string, descriptors: seq<DeleteGroup>, placeholder: string, suffix: string): (r: (seq<Stmt>, nat))
    ensures |r.0| == |descriptors|
    ensures r.1 == SumOf(descriptors, DeleteGroupSize)
    ensures forall i :: 0 <= i < |descriptors| ==> r.0[i] == BatchStatement(command, descriptors[i], placeholder, suffix)
  {
    if |descriptors| == 0 then ([], 0)
    else
      var rest := DoBatch(command, descriptors[1..], placeholder, suffix);
      ([BatchStatement(command, descriptors[0], placeholder, suffix)] + rest.0, |descriptors[0].1| + rest.1)
  }

  /** One `INSERT INTO header VALUES\n(schema),\n(schema)\nsuffix` statement for an insert group. */
  function InsertStatement(g: InsertGroup): (s: Stmt)
    ensures s.params == Flatten(Dict.Values(g.1))
  {
    var rows := Dict.Values(g.1);
    var values := Join(",\n", Repeat("(" + g.0.rowSchema + ")", |rows|));
    Stmt(g.0.command + " INTO " + g.0.header + " VALUES\n" + values + "\n" + g.0.suffix, Flatten(rows))
  }

  function InsertStatements(groups: seq<InsertGroup>): (r: (seq<Stmt>, nat))
    ensures |r.0| == |groups|
    ensures r.1 == SumOf(groups, InsertGroupSize)
    ensures forall i :: 0 <= i < |groups| ==> r.0[i] == InsertStatement(groups[i])
  {
    if |groups| == 0 then ([], 0)
    else
      var rest := InsertStatements(groups[1..]);
      ([InsertStatement(groups[0])] + rest.0, |groups[0].1| + rest.1)
  }

  // ---------------------------------------------------------------- flushing

  /** Python's sort key for `sorted(iteritems(self.deletes))`; the keys are unique, so the rows never decide. */
  function DeleteSortKey(g: DeleteGroup): seq<string>
  {
    [g.0.table] + g.0.columns
  }

  /** Python's sort key for `sorted(iteritems(self.inserts), key=lambda i: i[0])`. */
  function InsertSortKey(g: InsertGroup): seq<string>
  {
    [g.0.command, g.0.header, g.0.rowSchema, g.0.suffix]
  }

  /** The order `_do_deletes` writes the delete groups in. */
  function DeleteOrder(b: Batcher): (r: seq<DeleteGroup>)
    ensures |r| == |b.deletes|
    ensures multiset(r) == multiset(b.deletes)
    ensures SortedBy(r, DeleteSortKey)
  {
    SortBy(b.deletes, DeleteSortKey)
  }

  /** The order `_do_inserts` writes the insert groups in: the only group, or all of them sorted by key. */
  function InsertOrder(b: Batcher): (r: seq<InsertGroup>)
    ensures |r| == |b.inserts|
    ensures multiset(r) == multiset(b.inserts)
    ensures SortedBy(r, InsertSortKey)
  {
    if |b.inserts| == 1 then b.inserts else SortBy(b.inserts, InsertSortKey)
  }

  /** The statements `_do_deletes` writes, and the number of rows they cover. */
  function FlushDeletes(b: Batcher): (r: (seq<Stmt>, nat))
    ensures |r.0| == |b.deletes|
    ensures r.1 == PendingDeleteRows(b)
  {
    var order := DeleteOrder(b);
    SumOfPermutation(order, b.deletes, DeleteGroupSize);
    DoBatch("DELETE", order, b.deletePlaceholder, "")
  }

  /** `_do_deletes` writes the i-th group in sorted key order as its i-th statement. */
  lemma FlushDeletesInOrder(b: Batcher)
    ensures forall i :: 0 <= i < |b.deletes| ==>
              FlushDeletes(b).0[i] == BatchStatement("DELETE", DeleteOrder(b)[i], b.deletePlaceholder, "")
  {
    assert FlushDeletes(b).0 == DoBatch("DELETE", DeleteOrder(b), b.deletePlaceholder, "").0;
  }

  /** The statements `_do_inserts` writes, and the number of rows they cover. */
  function FlushInserts(b: Batcher): (r: (seq<Stmt>, nat))
    ensures |r.0| == |b.inserts|
    ensures r.1 == PendingInsertRows(b)
  {
    var order := InsertOrder(b);
    SumOfPermutation(order, b.inserts, InsertGroupSize);
    InsertStatements(order)
  }

  /** `_do_inserts` writes the i-th group in key order as its i-th statement. */
  lemma FlushInsertsInOrder(b: Batcher)
    ensures forall i :: 0 <= i < |b.inserts| ==> FlushInserts(b).0[i] == InsertStatement(InsertOrder(b)[i])
  {
    assert FlushInserts(b).0 == InsertStatements(InsertOrder(b)).0;
  }

  /** `flush()`: every delete group is written, then every insert group; the buffers and per-flush counters reset. */
  function Flush(b: Batcher): (r: Batcher)
    ensures r.deletes == [] && r.inserts == [] && r.rowsAdded == 0 && r.sizeAdded == 0
    ensures r.totalRowsDeleted == b.totalRowsDeleted + PendingDeleteRows(b)
    ensures r.totalRowsInserted == b.totalRowsInserted + PendingInsertRows(b)
    ensures r.totalSizeInserted == b.totalSizeInserted + b.sizeAdded
    ensures r.rowLimit == b.rowLimit && r.sizeLimit == b.sizeLimit && r.deletePlaceholder == b.deletePlaceholder
    ensures Valid(r)
  {
    var deleted := FlushDeletes(b);
    var inserted := FlushInserts(b);
    var log := b.log + deleted.0 + inserted.0;
    Batcher(
      b.rowLimit, b.sizeLimit, b.deletePlaceholder,
      b.totalRowsInserted + inserted.1, b.totalSizeInserted + b.sizeAdded, b.totalRowsDeleted + deleted.1,
      0, 0, [], [], log)
  }

  /**
   * A flush writes one statement per delete group, in sorted key order, and
   * only then one statement per insert group: no buffered insert can reach the
   * database ahead of a buffered delete.
   */
  lemma FlushOrder(b: Batcher)
    ensures |Flush(b).log| == |b.log| + |b.deletes| + |b.inserts| && Flush(b).log[..|b.log|] == b.log
    ensures forall i :: 0 <= i < |b.deletes| ==>
              Flush(b).log[|b.log| + i] == BatchStatement("DELETE", DeleteOrder(b)[i], b.deletePlaceholder, "")
    ensures forall i :: 0 <= i < |b.inserts| ==>
              Flush(b).log[|b.log| + |b.deletes| + i] == InsertStatement(InsertOrder(b)[i])
  {
    var deleted := FlushDeletes(b);
    var inserted := FlushInserts(b);
    FlushDeletesInOrder(b);
    FlushInsertsInOrder(b);
    assert Flush(b).log == b.log + deleted.0 + inserted.0;
    assert Flush(b).log[..|b.log|] == b.log;
  }

  // ---------------------------------------------------------------- deletes

  function ColumnSortKey(item: (string, Value)): seq<string>
  {
    [item.0]
  }

  predicate DistinctNames(kw: seq<(string, Value)>)
  {
    forall i, j :: 0 <= i < j < |kw| ==> kw[i].0 != kw[j].0
  }

  /** The names of keyword items, in order. */
  function Names(items: seq<(string, Value)>): (r: seq<string>)
    ensures |r| == |items| && forall i :: 0 <= i < |items| ==> r[i] == items[i].0
  {
    seq(|items|, i requires 0 <= i < |items| => items[i].0)
  }

  /** The values of keyword items, in order. */
  function ValuesOf(items: seq<(string, Value)>): (r: Row)
    ensures |r| == |items| && forall i :: 0 <= i < |items| ==> r[i] == items[i].1
  {
    seq(|items|, i requires 0 <= i < |items| => items[i].1)
  }

  /** `columns = tuple(sorted(kw))` and `row = tuple(kw[c] for c in columns)`. */
  function SortedColumns(kw: seq<(string, Value)>): (r: (seq<string>, Row))
    requires DistinctNames(kw)
    ensures |r.0| == |kw| && |r.1| == |kw|
    ensures forall i, j :: 0 <= i < j < |r.0| ==> StrLess(r.0[i], r.0[j])
    ensures forall i :: 0 <= i < |kw| ==> (r.0[i], r.1[i]) in kw
    ensures forall i :: 0 <= i < |kw| ==> kw[i].0 in r.0
  {
    var items := SortBy(kw, ColumnSortKey);
    SortedItems(kw, items);
    NamesCover(kw, items);
    (Names(items), ValuesOf(items))
  }

  lemma NamesCover(kw: seq<(string, Value)>, items: seq<(string, Value)>)
    requires forall x :: x in items <==> x in kw
    ensures forall i :: 0 <= i < |kw| ==> kw[i].0 in Names(items)
    ensures forall i :: 0 <= i < |items| ==> (Names(items)[i], ValuesOf(items)[i]) in kw
  {
    forall i | 0 <= i < |kw|
      ensures kw[i].0 in Names(items)
    {
      assert kw[i] in items;
      var k :| 0 <= k < |items| && items[k] == kw[i];
      assert Names(items)[k] == kw[i].0;
    }
    forall i | 0 <= i < |items|
      ensures (Names(items)[i], ValuesOf(items)[i]) in kw
    {
      assert (Names(items)[i], ValuesOf(items)[i]) == items[i];
    }
  }

  /** Sorting keyword items with distinct names puts the names in strictly increasing order. */
  lemma SortedItems(kw: seq<(string, Value)>, items: seq<(string, Value)>)
    requires DistinctNames(kw)
    requires multiset(items) == multiset(kw) && SortedBy(items, ColumnSortKey)
    ensures |items| == |kw|
    ensures forall x :: x in items <==> x in kw
    ensures forall i, j :: 0 <= i < j < |items| ==> StrLess(items[i].0, items[j].0)
  {
    assert |items| == |kw| by {
      assert |multiset(items)| == |multiset(kw)|;
    }
    forall x
      ensures x in items <==> x in kw
    {
      assert x in items <==> x in multiset(items);
      assert x in kw <==> x in multiset(kw);
    }
    forall i, j | 0 <= i < j < |items|
      ensures items[i].0 != items[j].0
    {
      SortedItemNamesDiffer(kw, items, i, j);
    }
    SortedDistinctIsStrict(items, ColumnSortKey);
    forall i, j | 0 <= i < j < |items|
      ensures StrLess(items[i].0, items[j].0)
    {
      SingletonTupleLess(items[i].0, items[j].0);
    }
  }

  lemma SortedItemNamesDiffer(kw: seq<(string, Value)>, items: seq<(string, Value)>, i: nat, j: nat)
    requires DistinctNames(kw) && multiset(items) == multiset(kw)
    requires i < j < |items|
    ensures items[i].0 != items[j].0
  {
    if items[i].0 == items[j].0 {
      assert items[i] in multiset(kw) && items[j] in multiset(kw);
      var p :| 0 <= p < |kw| && kw[p] == items[i];
      var q :| 0 <= q < |kw| && kw[q] == items[j];
      if p == q {
        MultisetCountAtLeastTwo(items, i, j);
        DistinctNamesCountOne(kw, items[i]);
      }
    }
  }

  /** In a list without repeated names, every item occurs once. */
  lemma {:induction false} DistinctNamesCountOne(kw: seq<(string, Value)>, x: (string, Value))
    requires DistinctNames(kw)
    ensures multiset(kw)[x] <= 1
  {
    if |kw| > 0 {
      assert kw == [kw[0]] + kw[1..];
      DistinctNamesCountOne(kw[1..], x);
      if x == kw[0] {
        assert x !in kw[1..];
      }
    }
  }

  /** An element that occurs at two positions of a list occurs there at least twice. */
  lemma MultisetCountAtLeastTwo<T>(s: seq<T>, i: nat, j: nat)
    requires i < j < |s| && s[i] == s[j]
    ensures multiset(s)[s[i]] >= 2
  {
    assert s == s[..i] + [s[i]] + s[i + 1..j] + [s[j]] + s[j + 1..];
  }

  /** `rows.add(row)` on the set a delete group keeps. */
  function AddRow(rows: seq<Row>, row: Row): (r: seq<Row>)
    ensures forall x :: x in r <==> x in rows || x == row
    ensures |r| == if row in rows then |rows| else |rows| + 1
  {
    if row in rows then rows else rows + [row]
  }

  /** The rows buffered for deletion under `key`, as a set. */
  function PendingDeletes(b: Batcher, key: DeleteKey): set<Row>
  {
    match Dict.Get(b.deletes, key)
    case None => {}
    case Some(rows) => set r | r in rows
  }

  /** The buffering half of `delete_from`, before the flush test. */
  function BufferDelete(b: Batcher, key: DeleteKey, row: Row): (r: Batcher)
    requires Valid(b) && |key.columns| > 0 && |row| == |key.columns|
    ensures Valid(r)
    ensures PendingDeletes(r, key) == PendingDeletes(b, key) + {row}
    ensures forall k :: k != key ==> Dict.Get(r.deletes, k) == Dict.Get(b.deletes, k)
    ensures PendingDeleteRows(r) == PendingDeleteRows(b) + (if row in PendingDeletes(b, key) then 0 else 1)
    ensures r.rowsAdded == b.rowsAdded + 1
    ensures r == b.(deletes := r.deletes, rowsAdded := r.rowsAdded)
  {
    var rows := match Dict.Get(b.deletes, key) case Some(rs) => rs case None => [];
    var rows' := AddRow(rows, row);
    var deletes' := Dict.Put(b.deletes, key, rows');
    ExistingGroupValid(b, key);
    AddRowValid(key, rows, row);
    GroupsValidAfterPut(b.deletes, key, rows');
    PutSize(b.deletes, key, rows');
    b.(deletes := deletes', rowsAdded := b.rowsAdded + 1)
  }

  /** A group already buffered under `key` is well formed. */
  lemma ExistingGroupValid(b: Batcher, key: DeleteKey)
    requires Valid(b)
    ensures Dict.Get(b.deletes, key).Some? ==> ValidDeleteGroup((key, Dict.Get(b.deletes, key).value))
  {
    if Dict.Get(b.deletes, key).Some? {
      var j :| 0 <= j < |b.deletes| && b.deletes[j].0 == key;
      assert ValidDeleteGroup(b.deletes[j]);
    }
  }

  /** Adding a row of the right width to a well-formed (or empty) group gives a well-formed group. */
  lemma AddRowValid(key: DeleteKey, rows: seq<Row>, row: Row)
    requires |key.columns| > 0 && |row| == |key.columns|
    requires rows == [] || ValidDeleteGroup((key, rows))
    ensures ValidDeleteGroup((key, AddRow(rows, row)))
  {
    var r := AddRow(rows, row);
    if row !in rows {
      assert r == rows + [row];
      forall j, k | 0 <= j < k < |r|
        ensures r[j] != r[k]
      {
        if k == |rows| {
          assert r[j] == rows[j];
        }
      }
    }
  }

  /** Putting a well-formed group into well-formed groups keeps every group well formed. */
  lemma GroupsValidAfterPut(ds: Dict.Dict<DeleteKey, seq<Row>>, key: DeleteKey, rows: seq<Row>)
    requires forall i :: 0 <= i < |ds| ==> ValidDeleteGroup(ds[i])
    requires ValidDeleteGroup((key, rows))
    ensures forall i :: 0 <= i < |Dict.Put(ds, key, rows)| ==> ValidDeleteGroup(Dict.Put(ds, key, rows)[i])
  {
    var ds' := Dict.Put(ds, key, rows);
    forall i | 0 <= i < |ds'|
      ensures ValidDeleteGroup(ds'[i])
    {
      if ds'[i].0 != key {
        assert Dict.Get(ds, ds'[i].0) == Some(ds'[i].1);
        var j :| 0 <= j < |ds| && ds[j].0 == ds'[i].0;
      } else {
        assert ds'[i].1 == rows;
      }
    }
  }

  /** Replacing or adding one group changes the pending total by the difference in its size. */
  lemma PutSize(ds: Dict.Dict<DeleteKey, seq<Row>>, key: DeleteKey, rows: seq<Row>)
    ensures SumOf(Dict.Put(ds, key, rows), DeleteGroupSize) + (match Dict.Get(ds, key) case Some(prev) => |prev| case None => 0)
         == SumOf(ds, DeleteGroupSize) + |rows|
  {
    match Dict.IndexOf(ds, key)
    case None =>
      SumOfAppend(ds, [(key, rows)], DeleteGroupSize);
    case Some(i) =>
      var r := Dict.Put(ds, key, rows);
      assert ds == ds[..i] + [ds[i]] + ds[i + 1..];
      assert r == ds[..i] + [(key, rows)] + ds[i + 1..];
      SumOfAppend(ds[..i] + [ds[i]], ds[i + 1..], DeleteGroupSize);
      SumOfAppend(ds[..i], [ds[i]], DeleteGroupSize);
      SumOfAppend(ds[..i] + [(key, rows)], ds[i + 1..], DeleteGroupSize);
      SumOfAppend(ds[..i], [(key, rows)], DeleteGroupSize);
  }

  /**
   * `delete_from(table, **kw)`: at least one column is required; the row is
   * added to the set kept for `(table, sorted column names)`, `rows_added`
   * grows on every call, and reaching `row_limit` flushes.
   */
  function DeleteFrom(b: Batcher, table: string, kw: seq<(string, Value)>): (r: Result<Batcher>)
    requires Valid(b) && DistinctNames(kw)
    ensures r.Failure? <==> |kw| == 0
    ensures r.Failure? ==> r.error == AssertionError
    ensures r.Success? ==> Valid(r.value)
    ensures r.Success? ==>
      var key := DeleteKey(table, SortedColumns(kw).0);
      var added := BufferDelete(b, key, SortedColumns(kw).1);
      r.value == if added.rowsAdded >= b.rowLimit then Flush(added) else added
  {
    if |kw| == 0 then Failure(AssertionError)
    else
      var (columns, row) := SortedColumns(kw);
      var added := BufferDelete(b, DeleteKey(table, columns), row);
      Success(if added.rowsAdded >= added.rowLimit then Flush(added) else added)
  }

  /** Below the row limit, `delete_from` only buffers the row. */
  lemma DeleteFromBelowLimit(b: Batcher, table: string, kw: seq<(string, Value)>)
    requires Valid(b) && DistinctNames(kw) && |kw| > 0 && b.rowsAdded + 1 < b.rowLimit
    ensures DeleteFrom(b, table, kw) == Success(BufferDelete(b, DeleteKey(table, SortedColumns(kw).0), SortedColumns(kw).1))
  {
  }

  // ---------------------------------------------------------------- inserts

  /** The rows buffered for insertion under `key`, as `{rowkey: row}`. */
  function PendingInserts(b: Batcher, key: InsertKey): Dict.Dict<Row, Row>
  {
    match Dict.Get(b.inserts, key)
    case None => []
    case Some(rows) => rows
  }

  /** The buffering half of `insert_into`, before the flush test. */
  function BufferInsert(b: Batcher, key: InsertKey, row: Row, rowkey: Row, size: nat): (r: Batcher)
    requires Valid(b)
    ensures Valid(r)
    ensures PendingInserts(r, key) == Dict.Put(PendingInserts(b, key), rowkey, row)
    ensures forall k :: k != key ==> Dict.Get(r.inserts, k) == Dict.Get(b.inserts, k)
    ensures r.rowsAdded == b.rowsAdded + 1 && r.sizeAdded == b.sizeAdded + size
    ensures r == b.(inserts := r.inserts, rowsAdded := r.rowsAdded, sizeAdded := r.sizeAdded)
  {
    var rows' := Dict.Put(PendingInserts(b, key), rowkey, row);
    var inserts' := Dict.Put(b.inserts, key, rows');
    var r := b.(inserts := inserts', rowsAdded := b.rowsAdded + 1, sizeAdded := b.sizeAdded + size);
    assert Valid(r) by {
      forall i | 0 <= i < |inserts'|
        ensures |inserts'[i].1| > 0
      {
        if inserts'[i].0 != key {
          assert Dict.Get(b.inserts, inserts'[i].0) == Some(inserts'[i].1);
          var j :| 0 <= j < |b.inserts| && b.inserts[j].0 == inserts'[i].0;
        } else {
          assert rowkey in Dict.Keys(rows');
        }
      }
    }
    r
  }

  /**
   * `insert_into(header, row_schema, row, rowkey, size, command, suffix)`:
   * the row replaces any row with the same key in its group, and reaching
   * `row_limit` rows or `size_limit` bytes flushes.
   */
  function InsertInto(b: Batcher, header: string, rowSchema: string, row: Row, rowkey: Row, size: nat,
                      command: string, suffix: string): (r: Batcher)
    requires Valid(b)
    ensures Valid(r)
    ensures
      var added := BufferInsert(b, InsertKey(command, header, rowSchema, suffix), row, rowkey, size);
      r == if added.rowsAdded >= b.rowLimit || added.sizeAdded >= b.sizeLimit then Flush(added) else added
  {
    var added := BufferInsert(b, InsertKey(command, header, rowSchema, suffix), row, rowkey, size);
    if added.rowsAdded >= added.rowLimit || added.sizeAdded >= added.sizeLimit then Flush(added) else added
  }

  /** Below both limits, `insert_into` only buffers the row. */
  lemma InsertIntoBelowLimits(b: Batcher, header: string, rowSchema: string, row: Row, rowkey: Row, size: nat,
                              command: string, suffix: string)
    requires Valid(b) && b.rowsAdded + 1 < b.rowLimit && b.sizeAdded + size < b.sizeLimit
    ensures InsertInto(b, header, rowSchema, row, rowkey, size, command, suffix)
            == BufferInsert(b, InsertKey(command, header, rowSchema, suffix), row, rowkey, size)
  {
  }

  // ---------------------------------------------------------------- selects

  /** The queries `select_from` issues: consecutive slices of `limit` values, the last one possibly shorter. */
  function SelectStatements(command: string, table: string, column: string, values: seq<Value>,
                            limit: int, placeholder: string, suffix: string): (r: seq<Stmt>)
    requires limit >= 1
    ensures forall i :: 0 <= i < |r| ==> 1 <= |r[i].params| <= limit
    ensures forall i :: 0 <= i < |r| - 1 ==> |r[i].params| == limit
    ensures forall i :: 0 <= i < |r| ==>
              r[i].text == SingleColumnQuery(command, table, column, |r[i].params|, placeholder) + suffix
    ensures Flatten(StatementParams(r)) == values
    decreases |values|
  {
    if |values| == 0 then []
    else
      var n := if |values| < limit then |values| else limit;
      var rest := SelectStatements(command, table, column, values[n..], limit, placeholder, suffix);
      var first := Stmt(SingleColumnQuery(command, table, column, n, placeholder) + suffix, values[..n]);
      FlattenParamsCons(first, rest);
      assert values == values[..n] + values[n..];
      [first] + rest
  }

  lemma FlattenParamsCons(first: Stmt, rest: seq<Stmt>)
    ensures Flatten(StatementParams([first] + rest)) == first.params + Flatten(StatementParams(rest))
  {
    assert StatementParams([first] + rest)[1..] == StatementParams(rest);
  }

  function StatementParams(stmts: seq<Stmt>): (r: seq<seq<Value>>)
    ensures |r| == |stmts| && forall i :: 0 <= i < |stmts| ==> r[i] == stmts[i].params
  {
    seq(|stmts|, i requires 0 <= i < |stmts| => stmts[i].params)
  }

  /** The rows the database answers to each statement, in statement order. */
  function FetchAll(stmts: seq<Stmt>, fetch: Stmt -> seq<Row>): seq<Row>
  {
    if |stmts| == 0 then [] else fetch(stmts[0]) + FetchAll(stmts[1..], fetch)
  }

  /**
   * `select_from(columns, table, suffix, **kw)`: exactly one filter keyword,
   * queried `row_limit` values at a time; `fetch` stands for the database's
   * answer to each query.  The counters and buffers are not touched.
   */
  function SelectFrom(b: Batcher, columns: seq<string>, table: string, suffix: string,
                      kw: seq<(string, seq<Value>)>, fetch: Stmt -> seq<Row>): (r: Result<(Batcher, seq<Row>)>)
    requires b.rowLimit >= 1
    ensures r.Failure? <==> |kw| != 1
    ensures r.Failure? ==> r.error == AssertionError
    ensures r.Success? ==> |r.value.0.log| >= |b.log| && r.value.0.log[..|b.log|] == b.log
    ensures r.Success? ==>
      var issued := r.value.0.log[|b.log|..];
      && r.value.0 == b.(log := r.value.0.log)
      && Flatten(StatementParams(issued)) == kw[0].1
      && (forall i :: 0 <= i < |issued| ==> 1 <= |issued[i].params| <= b.rowLimit)
      && r.value.1 == FetchAll(issued, fetch)
  {
    if |kw| != 1 then Failure(AssertionError)
    else
      var command := "SELECT " + Join(",", columns);
      var issued := SelectStatements(command, table, kw[0].0, kw[0].1, b.rowLimit, b.deletePlaceholder, suffix);
      var b' := b.(log := b.log + issued);
      assert b'.log[|b.log|..] == issued;
      assert b'.log[..|b.log|] == b.log;
      Success((b', FetchAll(issued, fetch)))
  }

  // ---------------------------------------------------------------- properties

  /** The IN-list of a single-column statement holds one placeholder per value. */
  lemma PlaceholderListSplits(placeholder: string, n: nat)
    requires n >= 1 && ',' !in placeholder
    ensures Split(PlaceholderList(placeholder, n), ',') == Repeat(placeholder, n)
  {
    SplitJoin(Repeat(placeholder, n), ',');
  }

  /** A single-column delete statement carries one parameter per buffered row. */
  lemma SingleColumnStatementParams(g: DeleteGroup, placeholder: string)
    requires ValidDeleteGroup(g) && |g.0.columns| == 1
    ensures |BatchStatement("DELETE", g, placeholder, "").params| == |g.1|
    ensures forall i :: 0 <= i < |g.1| ==> BatchStatement("DELETE", g, placeholder, "").params[i] == g.1[i][0]
  {
    FlattenSingletons(g.1);
  }

  lemma {:induction false} FlattenSingletons(rows: seq<Row>)
    requires forall i :: 0 <= i < |rows| ==> |rows[i]| == 1
    ensures |Flatten(rows)| == |rows|
    ensures forall i :: 0 <= i < |rows| ==> Flatten(rows)[i] == rows[i][0]
  {
    if |rows| > 0 {
      FlattenSingletons(rows[1..]);
    }
  }

  /** A multi-column statement carries one parameter per column of every buffered row. */
  lemma MultiColumnStatementParams(g: DeleteGroup, placeholder: string)
    requires ValidDeleteGroup(g)
    ensures |BatchStatement("DELETE", g, placeholder, "").params| == |g.1| * |g.0.columns|
  {
    FlattenLengthUniform(g.1, |g.0.columns|);
  }

  lemma {:induction false} FlattenLengthUniform(rows: seq<Row>, w: nat)
    requires forall i :: 0 <= i < |rows| ==> |rows[i]| == w
    ensures |Flatten(rows)| == |rows| * w
  {
    if |rows| > 0 {
      FlattenLengthUniform(rows[1..], w);
    }
  }

  /** Writing the same row key twice into one group leaves one row, holding the later values. */
  lemma InsertSameKeyTwice(b: Batcher, header: string, rowSchema: string, row1: Row, row2: Row,
                           rowkey: Row, size1: nat, size2: nat, command: string, suffix: string)
    requires Valid(b)
    requires b.rowsAdded + 2 < b.rowLimit && b.sizeAdded + size1 + size2 < b.sizeLimit
    ensures
      var key := InsertKey(command, header, rowSchema, suffix);
      var once := InsertInto(b, header, rowSchema, row1, rowkey, size1, command, suffix);
      var twice := InsertInto(once, header, rowSchema, row2, rowkey, size2, command, suffix);
      && |PendingInserts(twice, key)| == |PendingInserts(once, key)|
      && Dict.Keys(PendingInserts(twice, key)) == Dict.Keys(PendingInserts(once, key))
      && Dict.Get(PendingInserts(twice, key), rowkey) == Some(row2)
      && twice.rowsAdded == b.rowsAdded + 2
      && twice.log == b.log
  {
  }
}
