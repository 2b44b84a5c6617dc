# RelStorage adapter core, modelled in Dafny

This project models four parts of RelStorage's database adapters, the layer
that stores ZODB object pickles in a relational database.

- **Object mover** (`mover.py`). The tables are immutable maps:
  - `object_state` is keyed by `(zoid, tid)`. In the history-free layout the invariant `OneRowPerOid` keeps one row per zoid.
  - `current_object` maps an oid to a tid.
  - `temp_store` maps an oid to `(prev_tid, md5, state)`.
  - `blob_chunk` and `temp_blob_chunk` hold the blob chunks.

  Each statement of the mover becomes a pure query or state transition over these tables. This covers:
  - the loads and `exists`;
  - the chunked `current_object_tids`;
  - conflict detection and `replace_temp`;
  - staging through the row batcher (`store_temp`, `restore`);
  - the commit step `move_from_temp` followed by `update_current`.

  Module `Commit` proves protocol-level facts about these operations. The main one: a conflict-free history-preserving commit keeps `current_object` pointing at each object's newest revision, and after it every staged object loads with its staged state at the new tid.
- **Row batcher** (`batch.py`). A `Batcher` holds the pending deletes (distinct rows per `(table, sorted columns)`), the pending inserts (an insertion-ordered dict per `(command, header, row_schema, suffix)`), the row and size counters, and the cursor as an append-only log of `(statement, params)`. The model covers `delete_from`, `insert_into`, `select_from`, `flush`, the statement builders and the parameter flattening.
- **SQL compiler and dialect** (`sql/dialect.py`). A `Compiler` is a text buffer plus an insertion-ordered map from bind parameters and literals to placeholder names. The model covers:
  - the emit and visit helpers;
  - placeholder naming and literal de-duplication;
  - `finalize`;
  - `prepare`, which rewrites placeholders to `$1 ... $n`, builds the `EXECUTE` text and converts parameters.
- **Oracle OID allocator** (`oracle/oidallocator.py`). `set_min_oid` works over a sequence modelled as `(last value, increment)`.

Python behaviour the source relies on is modelled explicitly:
- `dict` insertion order, where re-assigning a key keeps its position (module `Dict`);
- `sorted` on string tuples (module `Ordering`);
- `str.strip`, `str.join`, `str.split`, `str.replace(old, new, 1)` and `str(n)` (module `Strings`);
- floor division (`//`), which agrees with Dafny's `/` for the positive divisor 16.

Exceptions the source raises become `Failure` values of a `Result`:
- `AssertionError`;
- `IndexError`;
- `KeyError`;
- the database's `IntegrityError` on a key collision.

Two details of the commit step, modelled as the statements are written:
- `move_from_temp` does not clear `temp_store` (`mover.py:382-405`). The staged rows are still there after the commit; the table is emptied by code that is not part of this model (for example, statements a subclass lists for `on_store_opened`).
- The history-preserving insert copies `prev_tid` straight from `temp_store` (`mover.py:337-343`). It does not look it up again in `current_object`.

## Model

| member | source | states |
|---|---|---|
| Batch.NewBatcher | src/relstorage/adapters/batch.py:33-56 | a new batcher has row limit 100 unless one is given and size limit 1 MiB; its buffers, counters and log are empty |
| Batch.SortedColumns | src/relstorage/adapters/batch.py:70-73 | the keyword columns come out strictly sorted by name; each (name, value) pair is one of the keywords, and every keyword name appears |
| Batch.AddRow | src/relstorage/adapters/batch.py:72-74 | adding a row to a delete group is a set insertion: the members are the old rows plus the new one, and the count grows only for a new row |
| Batch.BufferDelete | src/relstorage/adapters/batch.py:70-75 | the group's pending rows become the old set plus the row; other groups are unchanged; the distinct-row total grows by one only for a new row, while rows_added always grows by one |
| Batch.DeleteFrom | src/relstorage/adapters/batch.py:67-77 | fails with AssertionError exactly when no column is given; otherwise it buffers the row under (table, sorted columns) and flushes once rows_added reaches the row limit |
| Batch.BufferInsert | src/relstorage/adapters/batch.py:81-85 | the group's rows become the old dict with rowkey set to the row, replacing in place; other groups are unchanged; both counters grow |
| Batch.InsertInto | src/relstorage/adapters/batch.py:79-89 | buffers the row, then flushes when rows_added reaches the row limit or size_added reaches the size limit |
| Batch.InsertSameKeyTwice | src/relstorage/adapters/batch.py:83 | inserting the same rowkey twice leaves one pending row, at the same position, holding the second row |
| Batch.BatchStatement | src/relstorage/adapters/batch.py:126-161 | a batched delete's parameters are its group's rows flattened in order |
| Batch.DoBatch | src/relstorage/adapters/batch.py:126-156 | one statement per group, in group order; the count returned is the total number of rows |
| Batch.PlaceholderListSplits | src/relstorage/adapters/batch.py:166 | the single-column `IN (...)` list splits back into exactly one placeholder per value |
| Batch.SingleColumnStatementParams | src/relstorage/adapters/batch.py:133-151 | a single-column delete passes one parameter per row: that row's only value |
| Batch.MultiColumnStatementParams | src/relstorage/adapters/batch.py:138-151 | a multi-column delete passes rows × columns parameters |
| Batch.InsertStatement | src/relstorage/adapters/batch.py:182-196 | an insert statement's parameters are the group's rows, in rowkey insertion order, concatenated |
| Batch.InsertStatements | src/relstorage/adapters/batch.py:172-197 | one insert statement per group, in order; the count is the number of distinct rowkeys |
| Batch.DeleteOrder | src/relstorage/adapters/batch.py:123-124 | delete groups are issued as a permutation of the buffer, sorted by (table, columns) |
| Batch.InsertOrder | src/relstorage/adapters/batch.py:178-181 | insert groups are issued as a permutation of the buffer, sorted by (command, header, row schema, suffix) |
| Batch.FlushDeletes | src/relstorage/adapters/batch.py:123-129 | one delete statement per buffered group, and the count is the number of distinct pending delete rows, whatever order the groups are written in |
| Batch.FlushDeletesInOrder | src/relstorage/adapters/batch.py:123-128 | the i-th delete statement is the batch for the i-th group in sorted key order |
| Batch.FlushInserts | src/relstorage/adapters/batch.py:172-185 | one insert statement per buffered group, and the count is the number of distinct pending insert rows |
| Batch.FlushInsertsInOrder | src/relstorage/adapters/batch.py:178-182 | the i-th insert statement is the one for the i-th group in key order |
| Batch.Flush | src/relstorage/adapters/batch.py:112-121 | both buffers are empty, rows_added and size_added are 0, the totals grew by the distinct rows deleted and inserted and by the previous size_added, and the batcher stays well formed |
| Batch.FlushOrder | src/relstorage/adapters/batch.py:112-118 | the log only grows at its end, by one statement per group, and every delete statement of a flush is logged before every insert statement |
| Batch.SelectStatements | src/relstorage/adapters/batch.py:100-108 | each select query carries between 1 and row_limit values, all but the last exactly row_limit, and together they carry every filter value in order |
| Batch.SelectFrom | src/relstorage/adapters/batch.py:91-110 | fails with AssertionError unless exactly one filter keyword is given; otherwise it only appends to the log, covers all values in chunks of at most row_limit, and returns the rows fetched in query order |
| Mover.ComputeMd5 | src/relstorage/adapters/mover.py:50-54 | there is a digest only when history is kept and data is present, and then it is the hex digest of the data |
| Mover.LoadCurrent | src/relstorage/adapters/mover.py:56-92 | history-preserving: found exactly when current_object has the oid and its revision exists, at current_object's tid; history-free: found exactly when the oid has a row; the state returned is the row's, possibly None (creation undone) |
| Mover.LoadRevision | src/relstorage/adapters/mover.py:94-113 | returns the state stored at (oid, tid), or nothing when there is no such row or its state is None |
| Mover.Exists | src/relstorage/adapters/mover.py:115-128 | true exactly when current_object (history-preserving) or object_state (history-free) has a row for the oid |
| Mover.LoadBefore | src/relstorage/adapters/mover.py:130-152 | returns the revision with the greatest tid below the bound, or nothing exactly when there is none |
| Mover.GetObjectTidAfter | src/relstorage/adapters/mover.py:155-172 | returns the smallest tid above the given one, or nothing exactly when there is none |
| Mover.CurrentTids | src/relstorage/adapters/mover.py:176-181 | the queried table's oid to tid map: current_object itself, or the single object_state row per oid |
| Mover.CurrentObjectTids | src/relstorage/adapters/mover.py:176-197 | the result is the current map restricted to the requested oids; the queries take at most 1000 oids each, all but the last exactly 1000, and together they take every oid in order; one `SELECT zoid, tid ... WHERE zoid IN (<oid list>)` per batch is appended to the cursor log, on `current_object` or, history-free, on `object_state` |
| Mover.OidListRoundTrip | src/relstorage/adapters/mover.py:191 | the comma-separated oid text splits back into one decimal numeral per oid, each reading back as that oid |
| Mover.StoreTemp | src/relstorage/adapters/mover.py:218-234 | the batcher stays well formed (what is queued is stated by Commit.StoreTempQueues) |
| Mover.Restore | src/relstorage/adapters/mover.py:240-283 | the batcher stays well formed (what is queued is stated by Commit.RestoreReplacesRevision, Commit.RestoreReplacesObject and Commit.RestoreEmptyDeletes) |
| Mover.OnStoreOpened | src/relstorage/adapters/mover.py:201-206 | on a restart nothing is executed; otherwise the store-opened statements are appended to the log in order |
| Mover.OnLoadOpened | src/relstorage/adapters/mover.py:211-216 | on a restart nothing is executed; otherwise the load-opened statements are appended to the log in order |
| Mover.DetectConflict | src/relstorage/adapters/mover.py:290-316 | a triple (oid, current tid, staged prev_tid) is reported exactly when the oid is staged, has a current row at that tid, and the two tids differ |
| Mover.ReplaceTemp | src/relstorage/adapters/mover.py:318-333 | only the staged row of the oid changes, to the new prev_tid, digest and state; the other tables and staged rows are unchanged |
| Mover.MoveFromTemp | src/relstorage/adapters/mover.py:338-405 | each staged oid gets a row at tid; history-preserving keeps every old row, history-free replaces the staged oids' rows and keeps the others; blob chunks move only with blobs; a key collision is an IntegrityError; it returns the staged oids |
| Mover.UpdateCurrent | src/relstorage/adapters/mover.py:407-437 | history-free: no change; history-preserving: created objects gain a pointer at tid, changed objects move to tid, others keep theirs, a created object that already has a pointer is an IntegrityError, and only `current_object` changes |
| Commit.LoadCurrentIsNewest | src/relstorage/adapters/mover.py:56-152 | when current_object points at each object's newest revision, loading the current state equals loading before any tid above every stored tid |
| Commit.ExistsIffLoadable | src/relstorage/adapters/mover.py:56-128 | under the same invariant, exists is true exactly when load_current finds a row |
| Commit.RevisionVisibleUntilNext | src/relstorage/adapters/mover.py:130-172 | a revision is what load_before returns for every bound up to the next revision's tid, and load_revision returns its state |
| Commit.NoConflictIffUpToDate | src/relstorage/adapters/mover.py:290-316 | there is no conflict exactly when every staged oid that has a current tid was staged against that tid |
| Commit.ConflictExample | src/relstorage/adapters/mover.py:290-302 | a concrete case: oid 7 staged against tid 50 while current is 100 yields (7, 100, 50) |
| Commit.ReplaceTempResolves | src/relstorage/adapters/mover.py:318-333 | re-staging an oid against its current tid removes its conflicts and leaves every other oid's conflicts as they were |
| Commit.StoreTempQueues | src/relstorage/adapters/mover.py:224-234 | below the flush limits, store_temp puts the temp_store row under the oid in the pending temp_store rows, replacing any row pending for that oid |
| Commit.StoreTempDeletesOld | src/relstorage/adapters/mover.py:224-228 | with INSERT and no suffix the oid is among the pending temp_store deletes; an upsert (other command or a suffix) queues no delete |
| Commit.StoreTempWritesNothing | src/relstorage/adapters/mover.py:218-234 | below the flush limits nothing reaches the cursor: the log is unchanged, size_added grows by the data length and rows_added by at most two |
| Commit.StoreTempTwice | src/relstorage/adapters/mover.py:226-234 | storing the same oid twice leaves one pending temp_store row, holding the latest prev_tid and data |
| Commit.SortZoidTid | src/relstorage/adapters/mover.py:255-257 | restore's delete by zoid and tid is grouped under the columns (tid, zoid), with the values in that order |
| Commit.RestoreReplacesRevision | src/relstorage/adapters/mover.py:255-270 | a history-preserving INSERT restore queues the delete of (oid, tid) and the object_state row keyed by (oid, tid) |
| Commit.RestoreReplacesObject | src/relstorage/adapters/mover.py:271-281 | a history-free INSERT restore of non-empty data queues the delete of the oid's object_state row and the row (oid, tid, size, state) keyed by the oid |
| Commit.RestoreEmptyDeletes | src/relstorage/adapters/mover.py:271-283 | a history-free restore with empty or missing data only queues the delete of the oid's object_state row |
| Commit.MovedHistoryPreserving | src/relstorage/adapters/mover.py:337-405 | with a fresh tid, and for a blob transaction no chunk already stored at tid, the history-preserving move succeeds, adds exactly one row per staged oid at tid and keeps every other row; with blobs every stored chunk is kept and every temporary chunk is copied at tid, without blobs `blob_chunk` is unchanged |
| Commit.CreatedAndChanged | src/relstorage/adapters/mover.py:407-420 | after the move, the rows at tid with prev_tid 0 are the staged new objects and the others are the staged changes |
| Commit.CommitSucceeds | src/relstorage/adapters/mover.py:382-437 | a conflict-free commit at a fresh tid, with new objects staged against 0 and, for a blob transaction, no chunk already stored at tid, passes both steps without an IntegrityError |
| Commit.CommitKeepsLatest | src/relstorage/adapters/mover.py:407-437 | the commit keeps current_object pointing at each object's newest revision |
| Commit.CommittedLoads | src/relstorage/adapters/mover.py:382-437 | after the commit each staged object loads its staged state at tid, other objects load as before, old revisions are unchanged, and tid is the one new revision of each staged object |
| Commit.CommittedRows | src/relstorage/adapters/mover.py:338-344 | the commit gives every new revision a prev_tid, as the history-preserving layout requires, and keeps tids positive |
| Commit.CommittedLinks | src/relstorage/adapters/mover.py:338-344 | after a conflict-free commit at a fresh tid, every row's prev_tid is 0 for a created object or names an earlier stored revision of the same object |
| Commit.CommitHistoryPreserving | src/relstorage/adapters/mover.py:382-437 | the whole history-preserving commit, with or without blobs: it succeeds, keeps the table invariants, loads return the committed states, and blob chunks are copied at tid (or left alone without blobs), and prev_tid links to earlier revisions are kept |
| Commit.CommitHistoryFree | src/relstorage/adapters/mover.py:363-405 | the history-free move keeps one row per oid, leaves each staged oid with its one row at tid and the others untouched, and update_current changes nothing |
| Dialect.Bind | src/relstorage/adapters/sql/dialect.py:43-51 | a bound dialect takes the context's keep_history and remembers the context |
| Dialect.DialectEqEquivalence | src/relstorage/adapters/sql/dialect.py:67-70 | dialect equality is an equivalence on keep_history; binding two dialects to one context makes them equal; a dialect equals its bound copy exactly when the context has the same keep_history |
| Dialect.SqlTypeName | src/relstorage/adapters/sql/dialect.py:35-41 | OID and TID map to BIGINT, binary strings and states to BYTEA, booleans to BOOLEAN, and any other type is a KeyError |
| Dialect.DatatypesForColumns | src/relstorage/adapters/sql/dialect.py:59-65 | fails with KeyError exactly when some column has an unknown type; otherwise it gives one type name per column, in order |
| Dialect.Emit | src/relstorage/adapters/sql/dialect.py:228-230 | emitting only appends: the buffer becomes the old buffer followed by the contents, so the old buffer is a prefix and the length grows by the total length written; placeholders are untouched |
| Dialect.EmitAppend | src/relstorage/adapters/sql/dialect.py:228-230 | the contents are written one after another: emitting `a + b` is emitting `a` and then `b` |
| Dialect.EmitNull | src/relstorage/adapters/sql/dialect.py:232-233 | NULL is appended to the buffer and the placeholders are untouched |
| Dialect.EmitKeyword | src/relstorage/adapters/sql/dialect.py:235-242 | the stripped keyword is written with one space before it unless the buffer already ends in a space, and one space after; placeholders are untouched |
| Dialect.VisitColumn | src/relstorage/adapters/sql/dialect.py:269-270 | as `emit_identifier` (lines 244-249): an empty buffer raises IndexError; otherwise the column name is written, preceded by a space unless the buffer ends in `(` or a space |
| Dialect.VisitOp | src/relstorage/adapters/sql/dialect.py:281-282 | an operator is appended surrounded by single spaces |
| Dialect.EmitWPaddingSpace | src/relstorage/adapters/sql/dialect.py:235-240 | the stripped value is written followed by one space, preceded by one space unless the buffer already ends with one |
| Dialect.EmitIdentifier | src/relstorage/adapters/sql/dialect.py:244-249 | an empty buffer is an IndexError; otherwise a space is written first unless the buffer ends in `(` or a space |
| Dialect.VisitCsv | src/relstorage/adapters/sql/dialect.py:255-267 | an empty node list is an IndexError |
| Dialect.VisitCsvJoins | src/relstorage/adapters/sql/dialect.py:255-267 | when each child writes a fixed text, the children's texts come out joined by `, ` |
| Dialect.VisitBooleanLiteral | src/relstorage/adapters/sql/dialect.py:306-310 | a boolean literal is written as TRUE or FALSE and registers no placeholder |
| Dialect.PlaceholderRoundTrip | src/relstorage/adapters/sql/dialect.py:287-292 | every placeholder text reads back as its key: `%s` as itself, any other key k from `%(k)s` |
| Dialect.LiteralNamesDistinct | src/relstorage/adapters/sql/dialect.py:284-285 | names built from different placeholder counts differ |
| Dialect.VisitLiteral | src/relstorage/adapters/sql/dialect.py:294-304 | a new literal is appended as `literal_<n>`, n being the map's previous size, and written as `%(literal_<n>)s`; a repeated literal adds no entry and writes the stored bare name |
| Dialect.RepeatedLiteralWritesBareName | src/relstorage/adapters/sql/dialect.py:294-304 | visiting one literal twice on a fresh compiler writes `%(literal_0)s` then `literal_0`, and `literal_0` is not a placeholder |
| Dialect.VisitLiteralIntended | src/relstorage/adapters/sql/dialect.py:294-304 | every visit of a literal writes the placeholder of the name registered for it, registering a new literal once |
| Dialect.RepeatedLiteralIntended | src/relstorage/adapters/sql/dialect.py:294-304 | with the correction, visiting one literal twice writes the same placeholder twice, and it reads back as `literal_0` |
| Dialect.VisitBindParam | src/relstorage/adapters/sql/dialect.py:312-314 | the node is registered under its key, no other entry changes, and the key's placeholder is written |
| Dialect.VisitOrderedBindParam | src/relstorage/adapters/sql/dialect.py:316-318 | the node is registered as `%s`, no other entry changes, and `%s` is written |
| Dialect.Finalize | src/relstorage/adapters/sql/dialect.py:220-221 | the text is the buffer without white space at either end (trimmed, and the buffer is white space + text + white space); the inverse map's keys are exactly the placeholder names, and each name maps to the last node or literal that holds it |
| Dialect.FinalizeText | src/relstorage/adapters/sql/dialect.py:221 | any trimmed text that white space around it turns into the buffer is the text finalize returns, so the text is determined |
| Dialect.FinalizeInverts | src/relstorage/adapters/sql/dialect.py:220-221 | with distinct placeholder names, inverting finalize's map gives back the compiler's map, and the text is already stripped |
| Dialect.LiteralOnlyNamesDistinct | src/relstorage/adapters/sql/dialect.py:294-300 | a compiler that has only seen literals has distinct placeholder names |
| Dialect.Prepare | src/relstorage/adapters/sql/dialect.py:156-218 | `PREPARE name (types) AS` the renumbered text; `EXECUTE name(%s,...)` with one `%s` per placeholder entry, or `EXECUTE name` with none; the identity converter exactly when `%s` is used, otherwise the converter carrying placeholder_to_number; AssertionError when `%s` is mixed with other names |
| Dialect.PrepareConverts | src/relstorage/adapters/sql/dialect.py:176-216 | with distinct named placeholders, all supplied, prepare's converter turns the parameter dict into a list whose i-th entry is the value of the i-th placeholder name |
| Dialect.RenumberPrefix | src/relstorage/adapters/sql/dialect.py:176-183 | after the first n names are processed, the first n placeholders of the text have become `$1 ... $n` and the rest are untouched, even when two placeholders share a name |
| Dialect.PrepareNumbersInOrder | src/relstorage/adapters/sql/dialect.py:171-192 | a buffer whose placeholders appear in map order becomes `PREPARE name AS` the same text with `$1 ... $n` in their places |
| Dialect.DollarRoundTrip | src/relstorage/adapters/sql/dialect.py:139-140 | `$i` is a dollar sign followed by the decimal digits of i |
| Dialect.NumberingInOrder | src/relstorage/adapters/sql/dialect.py:176-181 | with distinct names, placeholder_to_number maps the i-th name to i + 1, in order |
| Dialect.ExecuteText | src/relstorage/adapters/sql/dialect.py:194-201 | without placeholders the text is `EXECUTE name` with no parentheses; otherwise one `%s` per placeholder, comma-separated, in parentheses |
| Dialect.NumberingKeys | src/relstorage/adapters/sql/dialect.py:176-181 | placeholder_to_number has exactly one key per distinct placeholder name |
| Dialect.ExecuteParams | src/relstorage/adapters/sql/dialect.py:195-198 | the parenthesised list splits back into exactly n `%s` |
| Dialect.Convert | src/relstorage/adapters/sql/dialect.py:204-216 | the positional converter passes parameters through unchanged; the named converter yields one slot per distinct name |
| Dialect.ConvertDistinctNames | src/relstorage/adapters/sql/dialect.py:209-216 | with distinct names all supplied, slot i holds the caller's value for the i-th name, so `$i` receives it |
| Dialect.SharedKeyConvertFails | src/relstorage/adapters/sql/dialect.py:176-216 | two bind parameters sharing one key: the numbering keeps a single entry numbered 2, so converting raises IndexError |
| Dialect.ConvertIntended | src/relstorage/adapters/sql/dialect.py:209-216 | one value per `$i` slot, the caller's value for that slot's name; KeyError exactly when a name is missing |
| OracleOids.BlockOf | src/relstorage/adapters/oracle/oidallocator.py:35 | n = (oid_int + 15) // 16 is the ceiling of oid_int / 16: 16·(n − 1) < oid_int ≤ 16·n |
| OracleOids.NextVal | src/relstorage/adapters/oracle/oidallocator.py:36-38 | nextval returns the last value plus the increment and remembers it |
| OracleOids.SetMinOid | src/relstorage/adapters/oracle/oidallocator.py:33-56 | the sequence ends at or above the target block; with the fetched value already there nothing is altered; otherwise the increment becomes the shortfall, one more value (exactly the target) is drawn, and the increment goes back to 1 |
| OracleOids.AlterTextRoundTrip | src/relstorage/adapters/oracle/oidallocator.py:49-51 | the ALTER statement's increment reads back as the shortfall |
| OracleOids.SetMinOidSettles | src/relstorage/adapters/oracle/oidallocator.py:33-53 | with increment 1 the next value drawn lies past the target block, and a second call for the same OID alters nothing |
| OracleOids.SetMinOidMonotone | src/relstorage/adapters/oracle/oidallocator.py:39-53 | the sequence never moves backwards under a non-negative increment |
| Dict.Put | src/relstorage/adapters/batch.py:83 | assigning a key sets its value and leaves every other key's value alone; a present key keeps its position, and a new key is appended |
| Dict.InvertInvolution | src/relstorage/adapters/sql/dialect.py:221 | inverting a dict with distinct values twice gives it back |
| Ordering.SortBy | src/relstorage/adapters/batch.py:181 | the sort returns a permutation of its input, ordered by the key |
| Strings.ReplaceFirstAfter | src/relstorage/adapters/sql/dialect.py:183 | `replace(old, new, 1)` rewrites the occurrence after a prefix that cannot start one |

## Left out

- The database, the cursor and the driver are not modelled as code. Tables are maps, statements are their relational meaning, and the cursor is an append-only log. SQL text is built but never parsed.
- The MD5 algorithm is a parameter of the mover (`md5Hex`). Only the rule that there is no digest for missing data or in the history-free layout is modelled.
- `fetchmany` laziness and the generator behaviour of `select_from`: results are whole sequences, and a `fetch` function stands for the database's answer to each select.
- The order of rows a query returns is not modelled where SQL leaves it open. `move_from_temp` returns a set of oids, and `detect_conflict` returns a set of triples.
- Python's set iteration order for a delete group's rows is unspecified. The model keeps first-insertion order, and the contracts speak of the group's set of rows.
- `sorted_deletes` is a test-only switch (`batch.py:38`) and is not modelled. Parameters are flattened in buffer order.
- `select_from` with a row limit of 0 or less loops forever in the source. `Batch.SelectFrom` and `Batch.SelectStatements` require a row limit of at least 1.
- The history-preserving restore computes `prev_tid` in the database with `COALESCE((SELECT tid FROM current_object ...), 0)`. The model queues the row's visible parameters (oid, tid, oid, md5, size, state) and does not evaluate that subquery.
- `blob_chunk` is keyed by `(zoid, tid, chunk_num)` in both layouts. The history-free layout's narrower schema is not modelled.
- The `noop_when_history_free` and metric decorators are defined outside these files. Their effect (a no-op in the history-free layout) is written into `Mover.ComputeMd5` and `Mover.UpdateCurrent`.
- `download_blob` and `upload_blob` are file I/O and are not implemented in the source.
- `DialectAware`, `visit`, `visit_select_list`, `compile` and `can_prepare` dispatch to query-tree nodes that live outside these files. The compiler takes a child's visit as a function parameter instead.
- `_next_prepared_stmt_name` uses a global counter and `hash()`, so the prepared statement's name is a parameter of `Dialect.Prepare`. `_find_datatypes_for_prepared_query` asks the query tree for its parameter types, so the datatypes are a parameter too.
- `new_oids` depends on `_oid_range_around`, which is not part of this model. The second connection's open, close and commit in `set_min_oid` are I/O. Only the effect on the sequence is modelled.
- Mover.StoreTemp: its own contract only keeps the batcher valid. What it queues is stated by `Commit.StoreTempQueues`, `Commit.StoreTempDeletesOld`, `Commit.StoreTempWritesNothing` and `Commit.StoreTempTwice`, for calls that do not reach a flush limit.
- Mover.Restore: its own contract only keeps the batcher valid. What it queues is stated by `Commit.RestoreReplacesRevision`, `Commit.RestoreReplacesObject` and `Commit.RestoreEmptyDeletes`, for calls that do not reach a flush limit.
- Dialect.VisitCsv: its own contract only states the empty-list error. The joined output is stated by `Dialect.VisitCsvJoins`, for children that write a fixed text.
- Dialect.VisitGrouped and Dialect.VisitFrom carry no contract. They write `(`, `)` or `FROM` around a child's visit, which is a parameter, so their output is whatever that visit writes.
- Dialect.PrepareNumbersInOrder: it covers buffers whose literal text contains no `%` and whose placeholders appear in the order of the placeholder map. This is the shape the compiler's visits produce.
- Dialect.ConvertDistinctNames: it covers distinct names that are all supplied. A missing name is a `KeyError` (`Dialect.ConvertIntended`), and a shared name is shown by `Dialect.SharedKeyConvertFails`.
- Commit.CommitHistoryPreserving: it assumes the caller's protocol. The tid is fresh and positive, `detect_conflict` found nothing, new objects were staged against tid 0, and a blob transaction has no chunk already stored at tid.
- Mover.UpdateCurrent: the `ORDER BY zoid` in the update's subquery (`mover.py:413-420`, with the comment at 434-435) only affects the order in which the database locks rows. Locking is not modelled, so the model states only the resulting pointers.
- OracleOids.SetMinOidSettles: it assumes the sequence's usual increment of 1.

## Findings

| source | as written | input that shows it | evidently intended | confidence | as-written member | corrected member |
|---|---|---|---|---|---|---|
| src/relstorage/adapters/sql/dialect.py:294-304 | a literal seen before returns the stored bare name `literal_k`, and that bare name is written into the buffer | one literal value visited twice on a fresh compiler writes `%(literal_0)sliteral_0` | write the placeholder `%(literal_k)s` on every visit, so that both uses bind the same parameter | high for the text produced; not executed | Dialect.RepeatedLiteralWritesBareName | Dialect.VisitLiteralIntended |
| src/relstorage/adapters/sql/dialect.py:176-216 | `placeholder_to_number` is keyed by name, so two bind parameters sharing a key get one entry numbered 2, while the text holds `$1` and `$2` | the placeholder names `[k, k]` with `d = {k: v}`: the named converter fills a one-slot list at index 2 and raises IndexError | one slot per `$i`, each holding the value for its name: `[v, v]` | medium, since shared keys may not occur in the queries the project builds; not executed | Dialect.SharedKeyConvertFails | Dialect.ConvertIntended |
