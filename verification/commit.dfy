/**
 * What the mover's operations guarantee together: loads agree with each
 * other, a conflict-free commit makes every staged state current, history is
 * kept (history-preserving) or replaced (history-free), and staging through
 * the row batcher queues exactly one row per object.
 */
module Commit {
  import opened Base
  import opened Mover
  import Batch
  import Dict
  import Ordering

  // ---------------------------------------------------------------- invariants

  /** `current_object` points every stored object at its newest revision, and points nowhere else. */
  ghost predicate CurrentIsLatest(db: Db)
  {
    && (forall k :: k in db.objectState ==> k.0 in db.currentObject && k.1 <= db.currentObject[k.0])
    && (forall o :: o in db.currentObject ==> (o, db.currentObject[o]) in db.objectState)
  }

  /** Every history-preserving revision records the tid it replaced. */
  ghost predicate HistoryRows(db: Db)
  {
    forall k :: k in db.objectState ==> db.objectState[k].prevTid.Some?
  }

  /**
   * Every revision's `prev_tid` is 0, for a created object, or names an
   * earlier stored revision of the same object.
   */
  ghost predicate PrevLinks(db: Db)
  {
    forall k :: k in db.objectState ==>
      var prev := db.objectState[k].prevTid;
      prev.Some? && (prev.value == 0 || ((k.0, prev.value) in db.objectState && prev.value < k.1))
  }

  /** Committed tids are positive, which is what lets `prev_tid = 0` mean "new object". */
  ghost predicate PositiveTids(db: Db)
  {
    forall k :: k in db.objectState ==> k.1 > 0
  }

  /** `tid` is newer than every stored revision. */
  ghost predicate FreshTid(db: Db, tid: Tid)
  {
    forall k :: k in db.objectState ==> k.1 < tid
  }

  /** Objects the database does not know yet are staged with `prev_tid = 0`. */
  ghost predicate NewObjectsStagedAtZero(db: Db)
  {
    forall o :: o in db.tempStore && o !in db.currentObject ==> db.tempStore[o].prevTid == 0
  }

  // ---------------------------------------------------------------- loads agree

  /**
   * `load_current` returns the newest revision: the same answer as
   * `load_before` with a bound above every stored tid.
   */
  lemma LoadCurrentIsNewest(m: Mover, db: Db, oid: Oid, bound: Tid)
    requires m.keepHistory ==> CurrentIsLatest(db)
    requires !m.keepHistory ==> OneRowPerOid(db)
    requires FreshTid(db, bound)
    ensures LoadCurrent(m, db, oid) == LoadBefore(db, oid, bound)
  {
    var cur := LoadCurrent(m, db, oid);
    var before := LoadBefore(db, oid, bound);
    if m.keepHistory {
      if oid in db.currentObject {
        assert (oid, db.currentObject[oid]) in db.objectState;
      }
      if before.Loaded? {
        assert (oid, before.tid) in db.objectState;
      }
    } else {
      if cur.Loaded? {
        assert (oid, cur.tid) in db.objectState;
      }
      if before.Loaded? {
        assert before.tid in Revisions(db, oid);
      }
    }
  }

  /** `exists` is true exactly when `load_current` finds a row. */
  lemma ExistsIffLoadable(m: Mover, db: Db, oid: Oid)
    requires m.keepHistory ==> CurrentIsLatest(db)
    requires !m.keepHistory ==> OneRowPerOid(db)
    ensures Exists(m, db, oid) <==> LoadCurrent(m, db, oid).Loaded?
  {
    if !m.keepHistory && Exists(m, db, oid) {
      var t :| (oid, t) in db.objectState;
      assert t in Revisions(db, oid);
    }
  }

  /**
   * A revision stays the one `load_before` sees from just after its own tid
   * up to the tid `get_object_tid_after` reports (or forever when there is
   * none); `load_revision` returns the same state.
   */
  lemma RevisionVisibleUntilNext(db: Db, oid: Oid, tid: Tid, until: Tid)
    requires (oid, tid) in db.objectState
    requires tid < until
    requires GetObjectTidAfter(db, oid, tid).Some? ==> until <= GetObjectTidAfter(db, oid, tid).value
    ensures LoadBefore(db, oid, until) == Loaded(db.objectState[(oid, tid)].state, tid)
    ensures LoadRevision(db, oid, tid) == db.objectState[(oid, tid)].state
  {
    var before := LoadBefore(db, oid, until);
    assert before.Loaded?;
  }

  // ---------------------------------------------------------------- conflicts

  /** No conflict is reported exactly when every staged object was read at its current tid. */
  lemma NoConflictIffUpToDate(m: Mover, db: Db)
    requires !m.keepHistory ==> OneRowPerOid(db)
    ensures DetectConflict(m, db) == {} <==>
              forall o :: o in db.tempStore && o in CurrentTids(m, db) ==> db.tempStore[o].prevTid == CurrentTids(m, db)[o]
  {
    var current := CurrentTids(m, db);
    if DetectConflict(m, db) == {} {
      forall o | o in db.tempStore && o in current
        ensures db.tempStore[o].prevTid == current[o]
      {
        var cur := current[o];
        var prev := db.tempStore[o].prevTid;
        if !m.keepHistory {
          assert (o, cur) in db.objectState;
        }
        assert (o, cur, prev) !in DetectConflict(m, db);
      }
    } else {
      var c :| c in DetectConflict(m, db);
      if !m.keepHistory {
        assert c.1 in Revisions(db, c.0);
        assert (c.0, current[c.0]) in db.objectState;
      }
    }
  }

  /** The scenario of an object read at tid 50 while tid 100 is current: one conflict, naming both tids. */
  lemma ConflictExample(m: Mover, data: Bytes)
    requires m.keepHistory
    ensures
      var db := Db(map[(7, 50) := StateRow(Some(0), None, 0, None), (7, 100) := StateRow(Some(50), None, 0, None)],
                   map[7 := 100], map[7 := TempRow(50, None, Some(data))], map[], map[]);
      DetectConflict(m, db) == {(7, 100, 50)}
  {
  }

  /** Resolving a conflict by restaging at the current tid clears that object's conflict and no other. */
  lemma ReplaceTempResolves(m: Mover, db: Db, oid: Oid, data: Bytes)
    requires !m.keepHistory ==> OneRowPerOid(db)
    requires oid in CurrentTids(m, db)
    ensures
      var db' := ReplaceTemp(m, db, oid, CurrentTids(m, db)[oid], data);
      && (forall cur, prev :: (oid, cur, prev) !in DetectConflict(m, db'))
      && (forall o, cur, prev :: o != oid ==> ((o, cur, prev) in DetectConflict(m, db') <==> (o, cur, prev) in DetectConflict(m, db)))
  {
    var db' := ReplaceTemp(m, db, oid, CurrentTids(m, db)[oid], data);
    forall cur, prev
      ensures (oid, cur, prev) !in DetectConflict(m, db')
    {
      if !m.keepHistory && (oid, cur) in db.objectState {
        assert (oid, CurrentTids(m, db)[oid]) in db.objectState;
      }
    }
  }

  // ---------------------------------------------------------------- commit, history-preserving

  /** The tables after a history-preserving move at `tid`: one new row per staged oid, every other row kept. */
  ghost predicate MovedAt(m: Mover, db: Db, db1: Db, tid: Tid)
  {
    && (forall k :: k in db1.objectState <==> k in db.objectState || (k.0 in db.tempStore && k.1 == tid))
    && (forall k :: k in db.objectState ==> db1.objectState[k] == db.objectState[k])
    && (forall o :: o in db.tempStore ==> db1.objectState[(o, tid)] == CommittedRow(m, db.tempStore[o]))
    && db1.currentObject == db.currentObject && db1.tempStore == db.tempStore
  }

  /** The rows at `tid` with `prev_tid = 0` are the staged new objects; the others are the staged changes. */
  ghost predicate SplitAt(db: Db, db1: Db, tid: Tid)
  {
    && (forall o :: o in CreatedAt(db1, tid) <==> o in db.tempStore && db.tempStore[o].prevTid == 0)
    && (forall o :: o in ChangedAt(db1, tid) <==> o in db.tempStore && db.tempStore[o].prevTid != 0)
  }

  /** With blobs, history-preserving: every stored chunk is kept and every temporary chunk is copied at `tid`. */
  ghost predicate ChunksCopiedAt(db: Db, db1: Db, tid: Tid)
  {
    && (forall k :: k in db.blobChunk ==> k in db1.blobChunk && db1.blobChunk[k] == db.blobChunk[k])
    && (forall k :: k in db.tempBlobChunk ==>
          (k.0, tid, k.1) in db1.blobChunk && db1.blobChunk[(k.0, tid, k.1)] == db.tempBlobChunk[k])
  }

  /** The rows `move_from_temp` adds at a fresh tid, history-preserving, with or without blobs. */
  lemma MovedHistoryPreserving(m: Mover, db: Db, tid: Tid, txnHasBlobs: bool)
    requires m.keepHistory && FreshTid(db, tid)
    requires !txnHasBlobs || !ChunkKeyTaken(m, db, tid)
    ensures MoveFromTemp(m, db, tid, txnHasBlobs).Success?
    ensures MovedAt(m, db, MoveFromTemp(m, db, tid, txnHasBlobs).value.0, tid)
    ensures txnHasBlobs ==> ChunksCopiedAt(db, MoveFromTemp(m, db, tid, txnHasBlobs).value.0, tid)
    ensures !txnHasBlobs ==> MoveFromTemp(m, db, tid, txnHasBlobs).value.0.blobChunk == db.blobChunk
  {
    assert !StateKeyTaken(m, db, tid);
    if txnHasBlobs {
      var db1 := MoveFromTemp(m, db, tid, txnHasBlobs).value.0;
      assert db1.blobChunk == MovedBlobChunk(m, db, tid);
      forall k | k in db.blobChunk
        ensures k in db1.blobChunk && db1.blobChunk[k] == db.blobChunk[k]
      {
        if k.1 == tid && (k.0, k.2) in db.tempBlobChunk {
          assert ChunkKeyTaken(m, db, tid);
        }
      }
    }
  }

  /** Which staged objects `update_current` inserts and which it moves. */
  lemma CreatedAndChanged(m: Mover, db: Db, db1: Db, tid: Tid)
    requires m.keepHistory && FreshTid(db, tid) && MovedAt(m, db, db1, tid)
    ensures SplitAt(db, db1, tid)
  {
    forall o
      ensures o in CreatedAt(db1, tid) <==> o in db.tempStore && db.tempStore[o].prevTid == 0
      ensures o in ChangedAt(db1, tid) <==> o in db.tempStore && db.tempStore[o].prevTid != 0
    {
      if o in db.tempStore {
        assert (o, tid) in db1.objectState;
      }
      if o in CreatedAt(db1, tid) || o in ChangedAt(db1, tid) {
        var k :| k in db1.objectState && k.1 == tid && k.0 == o;
        assert k !in db.objectState;
      }
    }
  }

  /** How the tables differ after a history-preserving commit of the staged rows at `tid`. */
  ghost predicate CommittedAt(m: Mover, db: Db, db2: Db, tid: Tid)
  {
    && (forall k :: k in db2.objectState <==> k in db.objectState || (k.0 in db.tempStore && k.1 == tid))
    && (forall k :: k in db.objectState ==> db2.objectState[k] == db.objectState[k])
    && (forall o :: o in db.tempStore ==> db2.objectState[(o, tid)] == CommittedRow(m, db.tempStore[o]))
    && (forall o :: o in db2.currentObject <==> o in db.currentObject || o in db.tempStore)
    && (forall o :: o in db.tempStore ==> db2.currentObject[o] == tid)
    && (forall o :: o in db.currentObject && o !in db.tempStore ==> db2.currentObject[o] == db.currentObject[o])
  }

  /** `move_from_temp` then `update_current`, conflict-free at a fresh tid, succeed and commit every staged row. */
  lemma CommitSucceeds(m: Mover, db: Db, tid: Tid, txnHasBlobs: bool)
    requires m.keepHistory
    requires CurrentIsLatest(db) && PositiveTids(db)
    requires FreshTid(db, tid) && (!txnHasBlobs || !ChunkKeyTaken(m, db, tid))
    requires NewObjectsStagedAtZero(db)
    requires DetectConflict(m, db) == {}
    ensures MoveFromTemp(m, db, tid, txnHasBlobs).Success?
    ensures UpdateCurrent(m, MoveFromTemp(m, db, tid, txnHasBlobs).value.0, tid).Success?
    ensures CommittedAt(m, db, UpdateCurrent(m, MoveFromTemp(m, db, tid, txnHasBlobs).value.0, tid).value, tid)
  {
    MovedHistoryPreserving(m, db, tid, txnHasBlobs);
    UpdateAfterMove(m, db, MoveFromTemp(m, db, tid, txnHasBlobs).value.0, tid);
  }

  /** Once the staged rows are copied at a fresh tid without conflicts, `update_current` succeeds and completes the commit. */
  lemma UpdateAfterMove(m: Mover, db: Db, db1: Db, tid: Tid)
    requires m.keepHistory && CurrentIsLatest(db) && PositiveTids(db)
    requires FreshTid(db, tid) && NewObjectsStagedAtZero(db) && DetectConflict(m, db) == {}
    requires MovedAt(m, db, db1, tid)
    ensures UpdateCurrent(m, db1, tid).Success?
    ensures CommittedAt(m, db, UpdateCurrent(m, db1, tid).value, tid)
  {
    CreatedAndChanged(m, db, db1, tid);
    StagedCurrentPositive(m, db);
    NothingCreatedIsCurrent(db, db1, tid);
    UpdateCommits(m, db, db1, tid);
  }

  /** An object created at `tid` was staged at `prev_tid = 0`, so it cannot be current already. */
  lemma NothingCreatedIsCurrent(db: Db, db1: Db, tid: Tid)
    requires db1.currentObject == db.currentObject && SplitAt(db, db1, tid)
    requires forall o :: o in db.tempStore && o in db.currentObject ==> db.tempStore[o].prevTid == db.currentObject[o] > 0
    ensures !exists o :: o in CreatedAt(db1, tid) && o in db1.currentObject
  {
  }

  /** Without conflicts, a staged object that is current was read at its current tid, which is positive. */
  lemma StagedCurrentPositive(m: Mover, db: Db)
    requires m.keepHistory && CurrentIsLatest(db) && PositiveTids(db)
    requires DetectConflict(m, db) == {}
    ensures forall o :: o in db.tempStore && o in db.currentObject ==> db.tempStore[o].prevTid == db.currentObject[o] > 0
  {
    forall o | o in db.tempStore && o in db.currentObject
      ensures db.tempStore[o].prevTid == db.currentObject[o] > 0
    {
      assert (o, db.currentObject[o], db.tempStore[o].prevTid) !in DetectConflict(m, db);
      assert (o, db.currentObject[o]) in db.objectState;
    }
  }

  /** A successful `update_current` after the move completes the commit. */
  lemma UpdateCommits(m: Mover, db: Db, db1: Db, tid: Tid)
    requires m.keepHistory && NewObjectsStagedAtZero(db)
    requires MovedAt(m, db, db1, tid) && SplitAt(db, db1, tid)
    requires UpdateCurrent(m, db1, tid).Success?
    ensures CommittedAt(m, db, UpdateCurrent(m, db1, tid).value, tid)
  {
  }

  /** `current_object` still points at the newest revision of everything after a commit at a fresh tid. */
  lemma CommitKeepsLatest(m: Mover, db: Db, db2: Db, tid: Tid)
    requires CurrentIsLatest(db) && FreshTid(db, tid) && CommittedAt(m, db, db2, tid)
    ensures CurrentIsLatest(db2)
  {
    forall k | k in db2.objectState
      ensures k.0 in db2.currentObject && k.1 <= db2.currentObject[k.0]
    {
      if k in db.objectState && k.0 !in db.tempStore {
        assert k.0 in db.currentObject;
      }
    }
  }

  /** What loads see after a commit at a fresh tid. */
  lemma CommittedLoads(m: Mover, db: Db, db2: Db, tid: Tid)
    requires m.keepHistory && CurrentIsLatest(db) && FreshTid(db, tid) && CommittedAt(m, db, db2, tid)
    ensures forall o :: o in db.tempStore ==> LoadCurrent(m, db2, o) == Loaded(db.tempStore[o].state, tid)
    ensures forall o :: o !in db.tempStore ==> LoadCurrent(m, db2, o) == LoadCurrent(m, db, o)
    ensures forall k :: k in db.objectState ==> LoadRevision(db2, k.0, k.1) == LoadRevision(db, k.0, k.1)
    ensures forall o :: o in db.tempStore ==> Revisions(db2, o) == Revisions(db, o) + {tid} && tid !in Revisions(db, o)
  {
    forall o | o in db.tempStore
      ensures LoadCurrent(m, db2, o) == Loaded(db.tempStore[o].state, tid)
      ensures Revisions(db2, o) == Revisions(db, o) + {tid}
    {
      assert (o, tid) in db2.objectState;
    }
    forall o | o !in db.tempStore
      ensures LoadCurrent(m, db2, o) == LoadCurrent(m, db, o)
    {
      if o in db.currentObject && (o, db.currentObject[o]) in db.objectState {
        assert (o, db2.currentObject[o]) in db2.objectState;
      }
    }
  }

  /** Every revision committed at a positive tid from a history-preserving staging keeps a `prev_tid`. */
  lemma CommittedRows(m: Mover, db: Db, db2: Db, tid: Tid)
    requires m.keepHistory && HistoryRows(db) && PositiveTids(db) && tid > 0 && CommittedAt(m, db, db2, tid)
    ensures HistoryRows(db2) && PositiveTids(db2)
  {
  }

  /**
   * A conflict-free commit at a fresh tid keeps every `prev_tid` linked: a
   * staged change was read at its current revision, which is older than
   * `tid`, and a staged creation carries 0.
   */
  lemma CommittedLinks(m: Mover, db: Db, db2: Db, tid: Tid)
    requires m.keepHistory && CurrentIsLatest(db) && PositiveTids(db) && PrevLinks(db)
    requires FreshTid(db, tid) && NewObjectsStagedAtZero(db) && DetectConflict(m, db) == {}
    requires CommittedAt(m, db, db2, tid)
    ensures PrevLinks(db2)
  {
    StagedCurrentPositive(m, db);
  }

  /**
   * A conflict-free history-preserving commit at a fresh tid: the staged
   * states become current at `tid`, every other object keeps its current
   * state, every earlier revision stays loadable, each staged object gains
   * exactly one revision, and `current_object` still points at the newest
   * revision of everything.
   */
  lemma CommitHistoryPreserving(m: Mover, db: Db, tid: Tid, txnHasBlobs: bool)
    requires m.keepHistory
    requires CurrentIsLatest(db) && HistoryRows(db) && PositiveTids(db)
    requires FreshTid(db, tid) && tid > 0 && (!txnHasBlobs || !ChunkKeyTaken(m, db, tid))
    requires NewObjectsStagedAtZero(db)
    requires DetectConflict(m, db) == {}
    ensures MoveFromTemp(m, db, tid, txnHasBlobs).Success?
    ensures UpdateCurrent(m, MoveFromTemp(m, db, tid, txnHasBlobs).value.0, tid).Success?
    ensures
      var db2 := UpdateCurrent(m, MoveFromTemp(m, db, tid, txnHasBlobs).value.0, tid).value;
      && CurrentIsLatest(db2) && HistoryRows(db2) && PositiveTids(db2)
      && (forall o :: o in db.tempStore ==> LoadCurrent(m, db2, o) == Loaded(db.tempStore[o].state, tid))
      && (forall o :: o !in db.tempStore ==> LoadCurrent(m, db2, o) == LoadCurrent(m, db, o))
      && (forall k :: k in db.objectState ==> LoadRevision(db2, k.0, k.1) == LoadRevision(db, k.0, k.1))
      && (forall o :: o in db.tempStore ==> Revisions(db2, o) == Revisions(db, o) + {tid} && tid !in Revisions(db, o))
      && (txnHasBlobs ==> ChunksCopiedAt(db, db2, tid))
      && (!txnHasBlobs ==> db2.blobChunk == db.blobChunk)
      && (PrevLinks(db) ==> PrevLinks(db2))
  {
    CommitSucceeds(m, db, tid, txnHasBlobs);
    MovedHistoryPreserving(m, db, tid, txnHasBlobs);
    var db1 := MoveFromTemp(m, db, tid, txnHasBlobs).value.0;
    var db2 := UpdateCurrent(m, db1, tid).value;
    assert db2.blobChunk == db1.blobChunk;
    CommitKeepsLatest(m, db, db2, tid);
    CommittedRows(m, db, db2, tid);
    if PrevLinks(db) {
      CommittedLinks(m, db, db2, tid);
    }
    CommittedLoads(m, db, db2, tid);
  }

  // ---------------------------------------------------------------- commit, history-free

  /**
   * Replacing every row of the objects in `staged` by one row at `tid` keeps
   * one row per object and gives each of them the single revision `tid`.
   */
  lemma ReplacedRevisions(db: Db, db1: Db, staged: set<Oid>, tid: Tid)
    requires OneRowPerOid(db)
    requires forall k :: k in db1.objectState <==> (k.0 in staged && k.1 == tid) || (k in db.objectState && k.0 !in staged)
    ensures OneRowPerOid(db1)
    ensures forall o :: o in staged ==> Revisions(db1, o) == {tid}
    ensures forall o :: o !in staged ==> Revisions(db1, o) == Revisions(db, o)
  {
    forall o | o in staged
      ensures Revisions(db1, o) == {tid}
    {
      assert (o, tid) in db1.objectState;
    }
  }

  /** The history-free move leaves each staged object exactly one revision, at `tid`, and no other object's revisions change. */
  lemma HistoryFreeRevisions(m: Mover, db: Db, tid: Tid, txnHasBlobs: bool)
    requires !m.keepHistory && OneRowPerOid(db)
    requires !txnHasBlobs || !ChunkKeyTaken(m, db, tid)
    ensures MoveFromTemp(m, db, tid, txnHasBlobs).Success?
    ensures
      var db1 := MoveFromTemp(m, db, tid, txnHasBlobs).value.0;
      && OneRowPerOid(db1)
      && (forall o :: o in db.tempStore ==> Revisions(db1, o) == {tid})
      && (forall o :: o !in db.tempStore ==> Revisions(db1, o) == Revisions(db, o))
  {
    var db1 := MoveFromTemp(m, db, tid, txnHasBlobs).value.0;
    assert forall k :: k in db1.objectState <==>
      (k.0 in db.tempStore.Keys && k.1 == tid) || (k in db.objectState && k.0 !in db.tempStore.Keys);
    ReplacedRevisions(db, db1, db.tempStore.Keys, tid);
  }

  /** An object whose only revision is `t` loads that revision's state. */
  lemma LoadOnlyRevision(m: Mover, db: Db, oid: Oid, t: Tid)
    requires !m.keepHistory && OneRowPerOid(db)
    requires Revisions(db, oid) == {t} && (oid, t) in db.objectState
    ensures LoadCurrent(m, db, oid) == Loaded(db.objectState[(oid, t)].state, t)
  {
  }

  /** An object whose rows are the same in two history-free tables loads the same in both. */
  lemma LoadSameRows(m: Mover, db: Db, db1: Db, oid: Oid)
    requires !m.keepHistory && OneRowPerOid(db) && OneRowPerOid(db1)
    requires Revisions(db1, oid) == Revisions(db, oid)
    requires forall t :: t in Revisions(db, oid) ==> db1.objectState[(oid, t)] == db.objectState[(oid, t)]
    ensures LoadCurrent(m, db1, oid) == LoadCurrent(m, db, oid)
  {
    if Revisions(db, oid) != {} {
      var t := MaxOf(Revisions(db, oid));
      assert (oid, t) in db.objectState;
    }
  }

  /**
   * A history-free commit replaces each staged object's only row with one at
   * `tid`, leaves every other object's row alone, keeps one row per object,
   * and makes `update_current` a no-op.
   */
  lemma CommitHistoryFree(m: Mover, db: Db, tid: Tid, txnHasBlobs: bool)
    requires !m.keepHistory && OneRowPerOid(db)
    requires !txnHasBlobs || !ChunkKeyTaken(m, db, tid)
    ensures MoveFromTemp(m, db, tid, txnHasBlobs).Success?
    ensures
      var db1 := MoveFromTemp(m, db, tid, txnHasBlobs).value.0;
      && OneRowPerOid(db1)
      && (forall o :: o in db.tempStore ==> Revisions(db1, o) == {tid})
      && (forall o :: o in db.tempStore ==> LoadCurrent(m, db1, o) == Loaded(db.tempStore[o].state, tid))
      && (forall o :: o !in db.tempStore ==> LoadCurrent(m, db1, o) == LoadCurrent(m, db, o))
      && UpdateCurrent(m, db1, tid) == Success(db1)
  {
    HistoryFreeRevisions(m, db, tid, txnHasBlobs);
    var db1 := MoveFromTemp(m, db, tid, txnHasBlobs).value.0;
    forall o | o in db.tempStore
      ensures LoadCurrent(m, db1, o) == Loaded(db.tempStore[o].state, tid)
    {
      LoadOnlyRevision(m, db1, o, tid);
    }
    forall o | o !in db.tempStore
      ensures LoadCurrent(m, db1, o) == LoadCurrent(m, db, o)
    {
      forall t | t in Revisions(db, o)
        ensures db1.objectState[(o, t)] == db.objectState[(o, t)]
      {
        assert (o, t) in db.objectState;
      }
      LoadSameRows(m, db, db1, o);
    }
  }

  // ---------------------------------------------------------------- staging

  /** The row `_generic_store_temp` queues for an object. */
  function TempStoreRow(m: Mover, oid: Oid, prevTid: Tid, data: Bytes): Batch.Row
  {
    [SqlInt(oid), SqlInt(prevTid), Md5Value(ComputeMd5(m, Some(data))), SqlBytes(data)]
  }

  /** A single keyword sorts to itself. */
  lemma SortOneColumn(name: string, v: Value)
    ensures Batch.SortedColumns([(name, v)]) == ([name], [v])
  {
    var r := Batch.SortedColumns([(name, v)]);
    assert (r.0[0], r.1[0]) in [(name, v)];
    assert r.0 == [name] && r.1 == [v];
  }

  /** `zoid=..., tid=...` sorts to the columns `(tid, zoid)`. */
  lemma SortZoidTid(oid: Value, tid: Value)
    ensures Batch.SortedColumns([("zoid", oid), ("tid", tid)]) == (["tid", "zoid"], [tid, oid])
  {
    var kw := [("zoid", oid), ("tid", tid)];
    var r := Batch.SortedColumns(kw);
    assert (r.0[0], r.1[0]) in kw && (r.0[1], r.1[1]) in kw;
    assert Ordering.StrLess(r.0[0], r.0[1]);
    if r.0[0] == r.0[1] {
      Ordering.StrLessIrreflexive(r.0[0]);
    }
    assert !Ordering.StrLess("zoid", "tid");
    assert r.0[0] == "tid" && r.0[1] == "zoid";
    assert r.1[0] == tid && r.1[1] == oid;
    assert r.0 == ["tid", "zoid"] && r.1 == [tid, oid];
  }

  /** Below the flush limits, `store_temp` is the delete (for a plain `INSERT`) and the insert, both only buffered. */
  lemma StoreTempBuffers(m: Mover, b: Batch.Batcher, oid: Oid, prevTid: Tid, data: Bytes, command: string, suffix: string)
    requires Batch.Valid(b)
    requires b.rowsAdded + 2 < b.rowLimit && b.sizeAdded + |data| < b.sizeLimit
    ensures command == "INSERT" && suffix == "" ==>
              StoreTemp(m, b, oid, prevTid, data, command, suffix)
              == Batch.BufferInsert(Batch.BufferDelete(b, ZoidDeleteKey("temp_store"), [SqlInt(oid)]),
                                    TempStoreKey(command, suffix), TempStoreRow(m, oid, prevTid, data), [SqlInt(oid)], |data|)
    ensures command != "INSERT" || suffix != "" ==>
              StoreTemp(m, b, oid, prevTid, data, command, suffix)
              == Batch.BufferInsert(b, TempStoreKey(command, suffix), TempStoreRow(m, oid, prevTid, data), [SqlInt(oid)], |data|)
  {
    SortOneColumn("zoid", SqlInt(oid));
    var header := "temp_store (zoid, prev_tid, md5, state)";
    var schema := "%s, %s, %s, %s";
    var row := TempStoreRow(m, oid, prevTid, data);
    if command == "INSERT" && suffix == "" {
      Batch.DeleteFromBelowLimit(b, "temp_store", [("zoid", SqlInt(oid))]);
      var b1 := Batch.BufferDelete(b, ZoidDeleteKey("temp_store"), [SqlInt(oid)]);
      Batch.InsertIntoBelowLimits(b1, header, schema, row, [SqlInt(oid)], |data|, command, suffix);
    } else {
      Batch.InsertIntoBelowLimits(b, header, schema, row, [SqlInt(oid)], |data|, command, suffix);
    }
  }

  /** Staging below the flush limits puts the object's row in the pending `temp_store` rows under its oid. */
  lemma StoreTempQueues(m: Mover, b: Batch.Batcher, oid: Oid, prevTid: Tid, data: Bytes, command: string, suffix: string)
    requires Batch.Valid(b)
    requires b.rowsAdded + 2 < b.rowLimit && b.sizeAdded + |data| < b.sizeLimit
    ensures
      var r := StoreTemp(m, b, oid, prevTid, data, command, suffix);
      Batch.PendingInserts(r, TempStoreKey(command, suffix))
      == Dict.Put(Batch.PendingInserts(b, TempStoreKey(command, suffix)), [SqlInt(oid)], TempStoreRow(m, oid, prevTid, data))
  {
    StoreTempBuffers(m, b, oid, prevTid, data, command, suffix);
    var key := TempStoreKey(command, suffix);
    if command == "INSERT" && suffix == "" {
      var b1 := Batch.BufferDelete(b, ZoidDeleteKey("temp_store"), [SqlInt(oid)]);
      assert Batch.PendingInserts(b1, key) == Batch.PendingInserts(b, key);
    }
  }

  /** A plain `INSERT` also has a delete of the object's old temporary row pending; an upsert queues no delete. */
  lemma StoreTempDeletesOld(m: Mover, b: Batch.Batcher, oid: Oid, prevTid: Tid, data: Bytes, command: string, suffix: string)
    requires Batch.Valid(b)
    requires b.rowsAdded + 2 < b.rowLimit && b.sizeAdded + |data| < b.sizeLimit
    ensures
      var r := StoreTemp(m, b, oid, prevTid, data, command, suffix);
      && (command == "INSERT" && suffix == "" ==> [SqlInt(oid)] in Batch.PendingDeletes(r, ZoidDeleteKey("temp_store")))
      && (command != "INSERT" || suffix != "" ==> r.deletes == b.deletes)
  {
    StoreTempBuffers(m, b, oid, prevTid, data, command, suffix);
  }

  /** Below the flush limits nothing is written: the log is unchanged and the counters grow by at most two rows. */
  lemma StoreTempWritesNothing(m: Mover, b: Batch.Batcher, oid: Oid, prevTid: Tid, data: Bytes, command: string, suffix: string)
    requires Batch.Valid(b)
    requires b.rowsAdded + 2 < b.rowLimit && b.sizeAdded + |data| < b.sizeLimit
    ensures
      var r := StoreTemp(m, b, oid, prevTid, data, command, suffix);
      && r.log == b.log
      && r.rowsAdded <= b.rowsAdded + 2 && r.sizeAdded == b.sizeAdded + |data|
      && r.rowLimit == b.rowLimit && r.sizeLimit == b.sizeLimit
  {
    StoreTempBuffers(m, b, oid, prevTid, data, command, suffix);
  }

  /** Staging the same object twice leaves one pending row for it, the later one. */
  lemma StoreTempTwice(m: Mover, b: Batch.Batcher, oid: Oid, prev1: Tid, data1: Bytes, prev2: Tid, data2: Bytes,
                       command: string, suffix: string)
    requires Batch.Valid(b)
    requires b.rowsAdded + 4 < b.rowLimit && b.sizeAdded + |data1| + |data2| < b.sizeLimit
    ensures
      var once := StoreTemp(m, b, oid, prev1, data1, command, suffix);
      var twice := StoreTemp(m, once, oid, prev2, data2, command, suffix);
      && Dict.Keys(Batch.PendingInserts(twice, TempStoreKey(command, suffix))) == Dict.Keys(Batch.PendingInserts(once, TempStoreKey(command, suffix)))
      && Dict.Get(Batch.PendingInserts(twice, TempStoreKey(command, suffix)), [SqlInt(oid)]) == Some(TempStoreRow(m, oid, prev2, data2))
  {
    StoreTempQueues(m, b, oid, prev1, data1, command, suffix);
    StoreTempWritesNothing(m, b, oid, prev1, data1, command, suffix);
    var once := StoreTemp(m, b, oid, prev1, data1, command, suffix);
    StoreTempQueues(m, once, oid, prev2, data2, command, suffix);
  }

  /** A history-free restore of an empty or missing state only queues a delete of the object. */
  lemma RestoreEmptyDeletes(m: Mover, b: Batch.Batcher, oid: Oid, tid: Tid, data: Option<Bytes>, command: string)
    requires Batch.Valid(b) && !m.keepHistory && !Truthy(data)
    requires b.rowsAdded + 1 < b.rowLimit
    ensures
      var r := Restore(m, b, oid, tid, data, command);
      && r.inserts == b.inserts
      && [SqlInt(oid)] in Batch.PendingDeletes(r, ZoidDeleteKey("object_state"))
      && r.log == b.log
  {
    SortOneColumn("zoid", SqlInt(oid));
  }

  /**
   * A history-free restore of a non-empty state replaces the object's row:
   * `INSERT` queues a delete by zoid and the new row keyed by the oid alone.
   */
  lemma RestoreReplacesObject(m: Mover, b: Batch.Batcher, oid: Oid, tid: Tid, data: Bytes)
    requires Batch.Valid(b) && !m.keepHistory && |data| > 0
    requires b.rowsAdded + 2 < b.rowLimit && b.sizeAdded + |data| < b.sizeLimit
    ensures
      var r := Restore(m, b, oid, tid, Some(data), "INSERT");
      && [SqlInt(oid)] in Batch.PendingDeletes(r, ZoidDeleteKey("object_state"))
      && Dict.Get(Batch.PendingInserts(r, RestoreKey(m, "INSERT")), [SqlInt(oid)])
         == Some([SqlInt(oid), SqlInt(tid), SqlInt(|data|), SqlBytes(data)])
      && r.log == b.log
  {
    SortOneColumn("zoid", SqlInt(oid));
  }

  /**
   * A history-preserving `INSERT` restore queues a delete of the `(zoid, tid)`
   * revision, with the columns in sorted order, and the new revision keyed by
   * `(oid, tid)`.
   */
  lemma RestoreReplacesRevision(m: Mover, b: Batch.Batcher, oid: Oid, tid: Tid, data: Bytes)
    requires Batch.Valid(b) && m.keepHistory
    requires b.rowsAdded + 2 < b.rowLimit && b.sizeAdded + |data| < b.sizeLimit
    ensures
      var r := Restore(m, b, oid, tid, Some(data), "INSERT");
      && [SqlInt(tid), SqlInt(oid)] in Batch.PendingDeletes(r, ZoidTidDeleteKey())
      && Dict.Get(Batch.PendingInserts(r, RestoreKey(m, "INSERT")), [SqlInt(oid), SqlInt(tid)])
         == Some([SqlInt(oid), SqlInt(tid), SqlInt(oid), Md5Value(ComputeMd5(m, Some(data))), SqlInt(|data|), SqlBytes(data)])
      && r.log == b.log
  {
    SortZoidTid(SqlInt(oid), SqlInt(tid));
  }
}
