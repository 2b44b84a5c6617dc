/**
 * `AbstractObjectMover` (src/relstorage/adapters/mover.py): loads object
 * states, stages a transaction's writes in `temp_store`, detects conflicts,
 * and moves the staged rows into permanent storage at commit.
 *
 * The database is modelled as five tables.  In a history-preserving layout
 * `object_state` keeps one row per `(zoid, tid)` revision and
 * `current_object` points each object at its current revision.  In a
 * history-free layout there is no `current_object` table and `object_state`
 * holds a single row per object (`OneRowPerOid`); its `prev_tid` and `md5`
 * columns do not exist, modelled as `None`.
 */
module Mover {
  import opened Base
  import opened Strings
  import Batch

  /** Object ids and transaction ids are non-negative 64-bit integers in the database. */
  type Oid = nat
  type Tid = nat

  /** A row of `temp_store`: one object written by the transaction being committed. */
  datatype TempRow = TempRow(prevTid: Tid, md5: Option<string>, state: Option<Bytes>)

  /** A row of `object_state`; `prevTid` and `md5` are `None` in the history-free layout. */
  datatype StateRow = StateRow(prevTid: Option<Tid>, md5: Option<string>, stateSize: nat, state: Option<Bytes>)

  datatype Db = Db(
    objectState: map<(Oid, Tid), StateRow>,
    currentObject: map<Oid, Tid>,
    tempStore: map<Oid, TempRow>,
    blobChunk: map<(Oid, Tid, nat), Bytes>,
    tempBlobChunk: map<(Oid, nat), Bytes>)

  /**
   * The mover's configuration: the layout, the MD5 hex digest the history-
   * preserving layout stores (an external hash, passed in), and the texts of
   * the statements named by `on_store_opened_statement_names` and
   * `on_load_opened_statement_names`.
   */
  datatype Mover = Mover(
    keepHistory: bool,
    md5Hex: Bytes -> string,
    storeOpenedStatements: seq<string>,
    loadOpenedStatements: seq<string>)

  /** The answer of `load_current` and `load_before`: `(None, None)`, or a state (None once undone) and its tid. */
  datatype Loaded = Missing | Loaded(state: Option<Bytes>, tid: Tid)

  /** The history-free layout's primary key: `object_state` is keyed by `zoid` alone. */
  ghost predicate OneRowPerOid(db: Db)
  {
    forall k1, k2 :: k1 in db.objectState && k2 in db.objectState && k1.0 == k2.0 ==> k1.1 == k2.1
  }

  /** The tids of every stored revision of `oid`. */
  function Revisions(db: Db, oid: Oid): set<Tid>
  {
    set k | k in db.objectState && k.0 == oid :: k.1
  }

  // ---------------------------------------------------------------- least and greatest

  predicate IsGreatest(m: nat, s: set<nat>)
  {
    m in s && forall x :: x in s ==> x <= m
  }

  predicate IsLeast(m: nat, s: set<nat>)
  {
    m in s && forall x :: x in s ==> m <= x
  }

  lemma {:induction false} HasMax(s: set<nat>)
    requires s != {}
    ensures exists m :: IsGreatest(m, s)
    decreases s
  {
    var y :| y in s;
    var rest := s - {y};
    if rest == {} {
      assert IsGreatest(y, s) by {
        forall x | x in s
          ensures x <= y
        {
          assert x !in rest;
        }
      }
    } else {
      HasMax(rest);
      var m :| IsGreatest(m, rest);
      var top := if y > m then y else m;
      assert IsGreatest(top, s) by {
        forall x | x in s
          ensures x <= top
        {
          if x != y {
            assert x in rest;
          }
        }
      }
    }
  }

  lemma {:induction false} HasMin(s: set<nat>)
    requires s != {}
    ensures exists m :: IsLeast(m, s)
    decreases s
  {
    var y :| y in s;
    var rest := s - {y};
    if rest == {} {
      assert IsLeast(y, s) by {
        forall x | x in s
          ensures y <= x
        {
          assert x !in rest;
        }
      }
    } else {
      HasMin(rest);
      var m :| IsLeast(m, rest);
      var bottom := if y < m then y else m;
      assert IsLeast(bottom, s) by {
        forall x | x in s
          ensures bottom <= x
        {
          if x != y {
            assert x in rest;
          }
        }
      }
    }
  }

  /** `ORDER BY tid DESC LIMIT 1` */
  function MaxOf(s: set<nat>): (m: nat)
    requires s != {}
    ensures m in s && forall x :: x in s ==> x <= m
  {
    HasMax(s);
    var m :| IsGreatest(m, s);
    m
  }

  /** `ORDER BY tid LIMIT 1` */
  function MinOf(s: set<nat>): (m: nat)
    requires s != {}
    ensures m in s && forall x :: x in s ==> m <= x
  {
    HasMin(s);
    var m :| IsLeast(m, s);
    m
  }

  // ---------------------------------------------------------------- loading

  /** `_compute_md5sum`: the history-free layout never computes a checksum. */
  function ComputeMd5(m: Mover, data: Option<Bytes>): (r: Option<string>)
    ensures r.Some? <==> m.keepHistory && data.Some?
    ensures r.Some? ==> r.value == m.md5Hex(data.value)
  {
    if !m.keepHistory || data.None? then None else Some(m.md5Hex(data.value))
  }

  /**
   * `load_current`: the revision `current_object` points at, joined with its
   * `object_state` row (history-preserving), or the object's only row
   * (history-free).
   */
  function LoadCurrent(m: Mover, db: Db, oid: Oid): (r: Loaded)
    requires !m.keepHistory ==> OneRowPerOid(db)
    ensures r.Loaded? ==> (oid, r.tid) in db.objectState && r.state == db.objectState[(oid, r.tid)].state
    ensures m.keepHistory ==>
              (r.Loaded? <==> oid in db.currentObject && (oid, db.currentObject[oid]) in db.objectState)
    ensures m.keepHistory && r.Loaded? ==> r.tid == db.currentObject[oid]
    ensures !m.keepHistory ==> (r.Loaded? <==> Revisions(db, oid) != {})
  {
    if m.keepHistory then
      if oid in db.currentObject && (oid, db.currentObject[oid]) in db.objectState then
        Loaded(db.objectState[(oid, db.currentObject[oid])].state, db.currentObject[oid])
      else Missing
    else
      var tids := Revisions(db, oid);
      if tids == {} then Missing
      else
        var t := MaxOf(tids);
        Loaded(db.objectState[(oid, t)].state, t)
  }

  /** `load_revision`: the state stored for `(oid, tid)`; a missing row and an undone creation both give `None`. */
  function LoadRevision(db: Db, oid: Oid, tid: Tid): (r: Option<Bytes>)
    ensures r.Some? <==> (oid, tid) in db.objectState && db.objectState[(oid, tid)].state.Some?
    ensures r.Some? ==> r == db.objectState[(oid, tid)].state
  {
    if (oid, tid) in db.objectState then db.objectState[(oid, tid)].state else None
  }

  /** `exists`: a `current_object` row (history-preserving) or any `object_state` row (history-free). */
  function Exists(m: Mover, db: Db, oid: Oid): (r: bool)
    ensures m.keepHistory ==> (r <==> oid in db.currentObject)
    ensures !m.keepHistory ==> (r <==> exists t :: (oid, t) in db.objectState)
  {
    if m.keepHistory then oid in db.currentObject
    else
      assert forall t :: (oid, t) in db.objectState ==> t in Revisions(db, oid);
      Revisions(db, oid) != {}
  }

  /** `load_before`: the newest revision of `oid` committed strictly before `tid`. */
  function LoadBefore(db: Db, oid: Oid, tid: Tid): (r: Loaded)
    ensures r.Missing? <==> forall k :: k in db.objectState && k.0 == oid ==> k.1 >= tid
    ensures r.Loaded? ==>
              && (oid, r.tid) in db.objectState && r.tid < tid
              && r.state == db.objectState[(oid, r.tid)].state
              && forall k :: k in db.objectState && k.0 == oid && k.1 < tid ==> k.1 <= r.tid
  {
    var earlier := set k | k in db.objectState && k.0 == oid && k.1 < tid :: k.1;
    assert forall k :: k in db.objectState && k.0 == oid && k.1 < tid ==> k.1 in earlier;
    if earlier == {} then
      Missing
    else
      var t := MaxOf(earlier);
      Loaded(db.objectState[(oid, t)].state, t)
  }

  /** `get_object_tid_after`: the oldest revision of `oid` committed strictly after `tid`. */
  function GetObjectTidAfter(db: Db, oid: Oid, tid: Tid): (r: Option<Tid>)
    ensures r.None? <==> forall k :: k in db.objectState && k.0 == oid ==> k.1 <= tid
    ensures r.Some? ==>
              && (oid, r.value) in db.objectState && r.value > tid
              && forall k :: k in db.objectState && k.0 == oid && k.1 > tid ==> r.value <= k.1
  {
    var later := set k | k in db.objectState && k.0 == oid && k.1 > tid :: k.1;
    assert forall k :: k in db.objectState && k.0 == oid && k.1 > tid ==> k.1 in later;
    if later == {} then
      None
    else
      Some(MinOf(later))
  }

  // ---------------------------------------------------------------- current tids

  /** The `{oid: tid}` view `current_object_tids` reads: `current_object`, or `object_state` itself when history-free. */
  function CurrentTids(m: Mover, db: Db): (r: map<Oid, Tid>)
    requires !m.keepHistory ==> OneRowPerOid(db)
    ensures m.keepHistory ==> r == db.currentObject
    ensures !m.keepHistory ==> forall o :: o in r <==> Revisions(db, o) != {}
    ensures !m.keepHistory ==> forall o :: o in r ==> (o, r[o]) in db.objectState
  {
    if m.keepHistory then db.currentObject
    else
      var r := map k | k in db.objectState :: k.0 := k.1;
      assert forall o :: o in r <==> Revisions(db, o) != {} by {
        forall o
          ensures o in r <==> Revisions(db, o) != {}
        {
          if Revisions(db, o) != {} {
            var t :| t in Revisions(db, o);
            assert (o, t) in db.objectState;
            assert o in r;
          }
          if o in r {
            var k :| k in db.objectState && k.0 == o;
            assert k.1 in Revisions(db, o);
          }
        }
      }
      r
  }

  /** `current_object_tids` queries at most this many oids at a time. */
  const OidsPerQuery: nat := 1000

  /** The decimal oid list spliced into each `current_object_tids` query. */
  function OidList(oids: seq<Oid>): string
  {
    Join(",", seq(|oids|, i requires 0 <= i < |oids| => NatToString(oids[i])))
  }

  /** The query text for one batch of oids. */
  function CurrentObjectTidsQuery(m: Mover, oids: seq<Oid>): string
  {
    (if m.keepHistory then "SELECT zoid, tid FROM current_object WHERE zoid IN ("
     else "SELECT zoid, tid FROM object_state WHERE zoid IN (")
    + OidList(oids) + ")"
  }

  /** The entries of `current` whose oid is among `oids`. */
  function Restrict(current: map<Oid, Tid>, oids: seq<Oid>): (r: map<Oid, Tid>)
    ensures forall o :: o in r <==> o in oids && o in current
    ensures forall o :: o in r ==> r[o] == current[o]
  {
    map o | o in oids && o in current :: current[o]
  }

  lemma RestrictAppend(current: map<Oid, Tid>, a: seq<Oid>, b: seq<Oid>)
    ensures Restrict(current, a) + Restrict(current, b) == Restrict(current, a + b)
  {
  }

  /**
   * `current_object_tids`: the current tid of every requested oid that has
   * one, queried in batches of at most 1000 oids (returned alongside), one
   * statement per batch appended to the cursor log.
   */
  method CurrentObjectTids(m: Mover, db: Db, log: seq<Stmt>, oids: seq<Oid>)
    returns (res: map<Oid, Tid>, batches: seq<seq<Oid>>, log': seq<Stmt>)
    requires !m.keepHistory ==> OneRowPerOid(db)
    ensures forall o :: o in res <==> o in oids && o in CurrentTids(m, db)
    ensures forall o :: o in res ==> res[o] == CurrentTids(m, db)[o]
    ensures Flatten(batches) == oids
    ensures forall i :: 0 <= i < |batches| ==> 1 <= |batches[i]| <= OidsPerQuery
    ensures forall i :: 0 <= i < |batches| - 1 ==> |batches[i]| == OidsPerQuery
    ensures |log'| == |log| + |batches| && log'[..|log|] == log
    ensures forall i :: 0 <= i < |batches| ==> log'[|log| + i] == Stmt(CurrentObjectTidsQuery(m, batches[i]), [])
  {
    res, batches := TidsInBatches(m, db, oids);
    log' := log + QueryStmts(m, batches);
    assert log'[..|log|] == log;
  }

  /** The loop of `current_object_tids`: the oids taken 1000 at a time, each batch's current tids merged into the result. */
  method TidsInBatches(m: Mover, db: Db, oids: seq<Oid>) returns (res: map<Oid, Tid>, batches: seq<seq<Oid>>)
    requires !m.keepHistory ==> OneRowPerOid(db)
    ensures forall o :: o in res <==> o in oids && o in CurrentTids(m, db)
    ensures forall o :: o in res ==> res[o] == CurrentTids(m, db)[o]
    ensures Flatten(batches) == oids
    ensures forall i :: 0 <= i < |batches| ==> 1 <= |batches[i]| <= OidsPerQuery
    ensures forall i :: 0 <= i < |batches| - 1 ==> |batches[i]| == OidsPerQuery
  {
    var current := CurrentTids(m, db);
    res := map[];
    batches := [];
    var rest := oids;
    while |rest| > 0
      invariant Flatten(batches) + rest == oids
      invariant forall i :: 0 <= i < |batches| ==> 1 <= |batches[i]| <= OidsPerQuery
      invariant forall i :: 0 <= i < |batches| - 1 ==> |batches[i]| == OidsPerQuery
      invariant |batches| > 0 && |rest| > 0 ==> |batches[|batches| - 1]| == OidsPerQuery
      invariant res == Restrict(current, Flatten(batches))
      decreases |rest|
    {
      var n := if |rest| < OidsPerQuery then |rest| else OidsPerQuery;
      var batch := rest[..n];
      res := res + Restrict(current, batch);
      RestrictAppend(current, Flatten(batches), batch);
      FlattenAppend(batches, [batch]);
      assert Flatten([batch]) == batch;
      assert rest == batch + rest[n..];
      batches := batches + [batch];
      rest := rest[n..];
    }
    assert Flatten(batches) + rest == Flatten(batches);
  }

  /** The statements `current_object_tids` executes, one per batch in order. */
  function QueryStmts(m: Mover, batches: seq<seq<Oid>>): (r: seq<Stmt>)
    ensures |r| == |batches|
    ensures forall i :: 0 <= i < |batches| ==> r[i] == Stmt(CurrentObjectTidsQuery(m, batches[i]), [])
  {
    seq(|batches|, i requires 0 <= i < |batches| => Stmt(CurrentObjectTidsQuery(m, batches[i]), []))
  }

  /** Reading the oid list of a query back as decimal numbers gives the batch. */
  lemma OidListRoundTrip(oids: seq<Oid>)
    requires |oids| >= 1
    ensures |Split(OidList(oids), ',')| == |oids|
    ensures forall i :: 0 <= i < |oids| ==>
              (forall j :: 0 <= j < |Split(OidList(oids), ',')[i]| ==> IsDigit(Split(OidList(oids), ',')[i][j]))
              && DecimalValue(Split(OidList(oids), ',')[i]) == oids[i]
  {
    var texts := seq(|oids|, i requires 0 <= i < |oids| => NatToString(oids[i]));
    assert forall i :: 0 <= i < |texts| ==> ',' !in texts[i] by {
      forall i | 0 <= i < |texts|
        ensures ',' !in texts[i]
      {
        assert forall j :: 0 <= j < |texts[i]| ==> IsDigit(texts[i][j]);
      }
    }
    SplitJoin(texts, ',');
    forall i | 0 <= i < |oids|
      ensures DecimalValue(texts[i]) == oids[i]
    {
      DecimalRoundTrip(oids[i]);
    }
  }

  // ---------------------------------------------------------------- session hooks

  /** `cursor.execute(stmt)` for each statement text, in order. */
  function ExecuteAll(log: seq<Stmt>, texts: seq<string>): (r: seq<Stmt>)
    ensures |r| == |log| + |texts| && r[..|log|] == log
    ensures forall i :: 0 <= i < |texts| ==> r[|log| + i] == Stmt(texts[i], [])
  {
    log + seq(|texts|, i requires 0 <= i < |texts| => Stmt(texts[i], []))
  }

  /** `on_store_opened`: the store-session statements run on a fresh session only. */
  function OnStoreOpened(m: Mover, log: seq<Stmt>, restart: bool): (r: seq<Stmt>)
    ensures restart ==> r == log
    ensures !restart ==> r == ExecuteAll(log, m.storeOpenedStatements)
  {
    if restart then log else ExecuteAll(log, m.storeOpenedStatements)
  }

  /** `on_load_opened`: the load-session statements run on a fresh session only. */
  function OnLoadOpened(m: Mover, log: seq<Stmt>, restart: bool): (r: seq<Stmt>)
    ensures restart ==> r == log
    ensures !restart ==> r == ExecuteAll(log, m.loadOpenedStatements)
  {
    if restart then log else ExecuteAll(log, m.loadOpenedStatements)
  }

  // ---------------------------------------------------------------- staging

  /** A checksum as a parameter value: text, or SQL `NULL`. */
  function Md5Value(md5: Option<string>): Value
  {
    if md5.Some? then SqlText(md5.value) else SqlNull
  }

  /** The insert group `_generic_store_temp` writes to. */
  function TempStoreKey(command: string, suffix: string): Batch.InsertKey
  {
    Batch.InsertKey(command, "temp_store (zoid, prev_tid, md5, state)", "%s, %s, %s, %s", suffix)
  }

  /** The delete group for rows keyed by `zoid` alone. */
  function ZoidDeleteKey(table: string): Batch.DeleteKey
  {
    Batch.DeleteKey(table, ["zoid"])
  }

  /** The delete group for `object_state` rows keyed by `(zoid, tid)`; the column names come out sorted. */
  function ZoidTidDeleteKey(): Batch.DeleteKey
  {
    Batch.DeleteKey("object_state", ["tid", "zoid"])
  }

  /**
   * `_generic_store_temp`: a plain `INSERT` first queues a delete of any
   * earlier `temp_store` row for the object (an upsert command or suffix makes
   * that unnecessary), then queues the row itself keyed by `oid`.
   */
  function StoreTemp(m: Mover, b: Batch.Batcher, oid: Oid, prevTid: Tid, data: Bytes,
                     command: string, suffix: string): (r: Batch.Batcher)
    requires Batch.Valid(b)
    ensures Batch.Valid(r)
  {
    var md5 := ComputeMd5(m, Some(data));
    var b1 :=
      if command == "INSERT" && suffix == "" then Batch.DeleteFrom(b, "temp_store", [("zoid", SqlInt(oid))]).value
      else b;
    Batch.InsertInto(
      b1, "temp_store (zoid, prev_tid, md5, state)", "%s, %s, %s, %s",
      [SqlInt(oid), SqlInt(prevTid), Md5Value(md5), SqlBytes(data)], [SqlInt(oid)], |data|, command, suffix)
  }

  /** The row schema of a history-preserving restore; `prev_tid` is looked up in `current_object` by the database. */
  const RestoreRowSchema: string :=
    "\n                %s, %s,\n                COALESCE((SELECT tid FROM current_object WHERE zoid = %s), 0),\n                %s, %s, %s\n            "

  function RestoreKey(m: Mover, command: string): Batch.InsertKey
  {
    if m.keepHistory then
      Batch.InsertKey(command, "object_state (zoid, tid, prev_tid, md5, state_size, state)", RestoreRowSchema, "")
    else
      Batch.InsertKey(command, "object_state (zoid, tid, state_size, state)", "%s, %s, %s, %s", "")
  }

  /**
   * `_generic_restore`: writes a revision directly.  History-preserving, a
   * plain `INSERT` first deletes the `(zoid, tid)` row; history-free, a
   * non-empty state replaces the object's row and an empty or missing state
   * deletes the object.
   */
  function Restore(m: Mover, b: Batch.Batcher, oid: Oid, tid: Tid, data: Option<Bytes>, command: string): (r: Batch.Batcher)
    requires Batch.Valid(b)
    ensures Batch.Valid(r)
  {
    var md5 := ComputeMd5(m, data);
    var encoded := if data.Some? then SqlBytes(data.value) else SqlNull;
    var size := if data.Some? then |data.value| else 0;
    if m.keepHistory then
      var b1 :=
        if command == "INSERT" then Batch.DeleteFrom(b, "object_state", [("zoid", SqlInt(oid)), ("tid", SqlInt(tid))]).value
        else b;
      Batch.InsertInto(
        b1, "object_state (zoid, tid, prev_tid, md5, state_size, state)", RestoreRowSchema,
        [SqlInt(oid), SqlInt(tid), SqlInt(oid), Md5Value(md5), SqlInt(size), encoded],
        [SqlInt(oid), SqlInt(tid)], size, command, "")
    else if Truthy(data) then
      var b1 := if command == "INSERT" then Batch.DeleteFrom(b, "object_state", [("zoid", SqlInt(oid))]).value else b;
      Batch.InsertInto(
        b1, "object_state (zoid, tid, state_size, state)", "%s, %s, %s, %s",
        [SqlInt(oid), SqlInt(tid), SqlInt(size), encoded], [SqlInt(oid)], size, command, "")
    else
      Batch.DeleteFrom(b, "object_state", [("zoid", SqlInt(oid))]).value
  }

  // ---------------------------------------------------------------- conflicts

  /**
   * `detect_conflict`: `(zoid, current tid, staged prev_tid)` for every staged
   * object whose current revision is not the one the transaction read.
   */
  function DetectConflict(m: Mover, db: Db): (r: set<(Oid, Tid, Tid)>)
    ensures m.keepHistory ==> forall o, cur, prev :: (o, cur, prev) in r <==>
              && o in db.tempStore && o in db.currentObject
              && cur == db.currentObject[o] && prev == db.tempStore[o].prevTid && cur != prev
    ensures !m.keepHistory ==> forall o, cur, prev :: (o, cur, prev) in r <==>
              && o in db.tempStore && (o, cur) in db.objectState
              && prev == db.tempStore[o].prevTid && cur != prev
  {
    if m.keepHistory then
      set o | o in db.tempStore && o in db.currentObject && db.tempStore[o].prevTid != db.currentObject[o]
        :: (o, db.currentObject[o], db.tempStore[o].prevTid)
    else
      set k | k in db.objectState && k.0 in db.tempStore && db.tempStore[k.0].prevTid != k.1
        :: (k.0, k.1, db.tempStore[k.0].prevTid)
  }

  /** `replace_temp`: overwrite a staged row after conflict resolution; an oid that is not staged changes nothing. */
  function ReplaceTemp(m: Mover, db: Db, oid: Oid, prevTid: Tid, data: Bytes): (r: Db)
    ensures r.tempStore.Keys == db.tempStore.Keys
    ensures oid in db.tempStore ==> r.tempStore[oid] == TempRow(prevTid, ComputeMd5(m, Some(data)), Some(data))
    ensures forall o :: o in db.tempStore && o != oid ==> r.tempStore[o] == db.tempStore[o]
    ensures r == db.(tempStore := r.tempStore)
  {
    if oid in db.tempStore then
      db.(tempStore := db.tempStore[oid := TempRow(prevTid, ComputeMd5(m, Some(data)), Some(data))])
    else db
  }

  // ---------------------------------------------------------------- commit

  /** `COALESCE(LENGTH(state), 0)` */
  function StateSize(state: Option<Bytes>): nat
  {
    if state.Some? then |state.value| else 0
  }

  /** The `object_state` row a staged object becomes at commit. */
  function CommittedRow(m: Mover, row: TempRow): StateRow
  {
    if m.keepHistory then StateRow(Some(row.prevTid), row.md5, StateSize(row.state), row.state)
    else StateRow(None, None, StateSize(row.state), row.state)
  }

  /** `object_state` after the copy: history-free first drops every row of a staged object. */
  function MovedObjectState(m: Mover, db: Db, tid: Tid): map<(Oid, Tid), StateRow>
  {
    var kept :=
      if m.keepHistory then db.objectState
      else map k | k in db.objectState && k.0 !in db.tempStore :: db.objectState[k];
    kept + map o | o in db.tempStore :: (o, tid) := CommittedRow(m, db.tempStore[o])
  }

  /** `blob_chunk` after the copy: history-free first drops every chunk of a staged object. */
  function MovedBlobChunk(m: Mover, db: Db, tid: Tid): map<(Oid, Tid, nat), Bytes>
  {
    var kept :=
      if m.keepHistory then db.blobChunk
      else map k | k in db.blobChunk && k.0 !in db.tempStore :: db.blobChunk[k];
    kept + map k | k in db.tempBlobChunk :: (k.0, tid, k.1) := db.tempBlobChunk[k]
  }

  /** The history-preserving insert would hit an existing `(zoid, tid)` primary key. */
  predicate StateKeyTaken(m: Mover, db: Db, tid: Tid)
  {
    m.keepHistory && exists o :: o in db.tempStore && (o, tid) in db.objectState
  }

  /** The blob copy would hit an existing `(zoid, tid, chunk_num)` primary key. */
  predicate ChunkKeyTaken(m: Mover, db: Db, tid: Tid)
  {
    exists k :: k in db.tempBlobChunk && (k.0, tid, k.1) in db.blobChunk && (m.keepHistory || k.0 !in db.tempStore)
  }

  /**
   * `move_from_temp`: every staged row becomes an `object_state` row at
   * `tid`, carrying the staged `prev_tid` and checksum (history-preserving)
   * or replacing the object's only row (history-free); with blobs, the
   * temporary chunks are copied at `tid`.  Returns the staged oids.  The
   * temporary tables are left as they are.
   */
  function MoveFromTemp(m: Mover, db: Db, tid: Tid, txnHasBlobs: bool): (r: Result<(Db, set<Oid>)>)
    ensures r.Failure? <==> StateKeyTaken(m, db, tid) || (txnHasBlobs && ChunkKeyTaken(m, db, tid))
    ensures r.Failure? ==> r.error.IntegrityError?
    ensures r.Success? ==> r.value.1 == db.tempStore.Keys
    ensures r.Success? ==> r.value.0 == db.(objectState := r.value.0.objectState, blobChunk := r.value.0.blobChunk)
    ensures r.Success? ==> forall o :: o in db.tempStore ==>
              (o, tid) in r.value.0.objectState && r.value.0.objectState[(o, tid)] == CommittedRow(m, db.tempStore[o])
    ensures r.Success? && m.keepHistory ==> forall k :: k in db.objectState ==>
              k in r.value.0.objectState && r.value.0.objectState[k] == db.objectState[k]
    ensures r.Success? && m.keepHistory ==> forall k :: k in r.value.0.objectState ==>
              k in db.objectState || (k.0 in db.tempStore && k.1 == tid)
    ensures r.Success? && !m.keepHistory ==> forall k :: k in r.value.0.objectState ==>
              if k.0 in db.tempStore then k.1 == tid
              else k in db.objectState && r.value.0.objectState[k] == db.objectState[k]
    ensures r.Success? && !m.keepHistory ==> forall k :: k in db.objectState && k.0 !in db.tempStore ==>
              k in r.value.0.objectState
    ensures r.Success? && !txnHasBlobs ==> r.value.0.blobChunk == db.blobChunk
  {
    if StateKeyTaken(m, db, tid) then Failure(IntegrityError("object_state"))
    else if txnHasBlobs && ChunkKeyTaken(m, db, tid) then Failure(IntegrityError("blob_chunk"))
    else
      var os := MovedObjectState(m, db, tid);
      var bc := if txnHasBlobs then MovedBlobChunk(m, db, tid) else db.blobChunk;
      Success((db.(objectState := os, blobChunk := bc), db.tempStore.Keys))
  }

  /** The objects first created at `tid`: their new row has `prev_tid = 0`. */
  function CreatedAt(db: Db, tid: Tid): set<Oid>
  {
    set k | k in db.objectState && k.1 == tid && db.objectState[k].prevTid == Some(0) :: k.0
  }

  /** The objects changed at `tid`: their new row has a non-zero `prev_tid`. */
  function ChangedAt(db: Db, tid: Tid): set<Oid>
  {
    set k | k in db.objectState && k.1 == tid && db.objectState[k].prevTid.Some?
                && db.objectState[k].prevTid.value != 0 :: k.0
  }

  /**
   * `update_current` (history-preserving only): insert a pointer for every
   * object created at `tid`, then move the pointer of every changed object to
   * `tid`.  A created object that already has a pointer violates
   * `current_object`'s key.
   */
  function UpdateCurrent(m: Mover, db: Db, tid: Tid): (r: Result<Db>)
    ensures !m.keepHistory ==> r == Success(db)
    ensures m.keepHistory ==> (r.Failure? <==> exists o :: o in CreatedAt(db, tid) && o in db.currentObject)
    ensures r.Failure? ==> r.error == IntegrityError("current_object")
    ensures r.Success? ==> r.value == db.(currentObject := r.value.currentObject)
    ensures m.keepHistory && r.Success? ==> forall o ::
              (o in r.value.currentObject <==> o in db.currentObject || o in CreatedAt(db, tid))
    ensures m.keepHistory && r.Success? ==> forall o :: o in r.value.currentObject ==>
              r.value.currentObject[o] ==
                (if o in CreatedAt(db, tid) || o in ChangedAt(db, tid) then tid else db.currentObject[o])
  {
    if !m.keepHistory then Success(db)
    else
      var created := CreatedAt(db, tid);
      var changed := ChangedAt(db, tid);
      if exists o :: o in created && o in db.currentObject then Failure(IntegrityError("current_object"))
      else
        assert created !! changed;
        var inserted := db.currentObject + map o | o in created :: tid;
        var updated := map o | o in inserted :: if o in changed then tid else inserted[o];
        Success(db.(currentObject := updated))
  }
}
