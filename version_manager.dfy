/**
 * The version manager (`VersionManagerImpl`): the registry of active
 * transactions, and reads, inserts and deletes of row versions under the
 * visibility rules, with row locks from the lock table and statuses from
 * the transaction status file. The versions the data manager stores are a
 * map from uid to version bytes; the cache of loaded versions is not
 * modelled, a read goes to the map.
 */
module VersionManager {
  import opened Bytes
  import opened Outcomes
  import opened Transactions
  import opened Visibility
  import Entry
  import TransactionManager
  import LockTable

  /** What `delete` did when it did not fail. `Blocked`: the caller waits for the row lock. */
  datatype DeleteOutcome = Deleted(done: bool) | Blocked

  /**
   * The xids the status file reports committed, with the super xid 0
   * always committed; a slot before the file start never is.
   */
  function Committed(file: seq<Byte>): I64 -> bool
  {
    (x: I64) => TransactionManager.XidPosition(x) >= 0
         && TransactionManager.Status(file, x) == TransactionManager.FIELD_TRAN_COMMITTED
  }

  /** An insert by `t` is visible to `t` itself, and reads back the inserted payload. */
  lemma ReadOwnInsert(c: I64 -> bool, t: Transaction, data: seq<Byte>)
    requires HasSnapshot(t)
    ensures var e := Entry.WrapEntryRaw(t.xid, data);
            IsVisible(c, t, Entry.Xmin(e), Entry.Xmax(e)) && Entry.Payload(e) == data
  {
    Entry.WrapEntryFields(t.xid, data);
  }

  /**
   * A version `t` deleted is no longer visible to `t`, and keeps its
   * creator and payload.
   */
  lemma DeletedInvisibleToDeleter(c: I64 -> bool, t: Transaction, e: seq<Byte>)
    requires HasSnapshot(t) && |e| >= Entry.OFFSET_DATA && t.xid != TransactionManager.SUPER_XID
    ensures var d := Entry.SetXmaxImage(e, t.xid);
            && !IsVisible(c, t, Entry.Xmin(d), Entry.Xmax(d))
            && Entry.Xmin(d) == Entry.Xmin(e) && Entry.Payload(d) == Entry.Payload(e)
  {
    Entry.SetXmaxFields(e, t.xid);
  }

  /**
   * What `delete` does once `xid` sees version `uid`, from the registry,
   * versions, status file and lock table before (`a0`, `s0`, `f0`, `l0`)
   * to the result and those after (`a1`, `s1`, `f1`, `l1`). The lock is
   * requested first. A deadlock stores the concurrent-update error, rolls
   * `xid` back and releases its locks, and marks it auto-aborted. A lock
   * held by another xid makes the caller wait. With the lock held, a
   * version `xid` already deleted is left alone, a version skip aborts as
   * a deadlock does, and otherwise `xid` becomes the deleter.
   */
  ghost predicate LockedDelete(a0: map<I64, Transaction>, s0: map<I64, seq<Byte>>, f0: seq<Byte>, l0: LockTable.Tables,
                               xid: I64, uid: I64, r: Result<DeleteOutcome>,
                               a1: map<I64, Transaction>, s1: map<I64, seq<Byte>>, f1: seq<Byte>, l1: LockTable.Tables)
    requires xid in a0 && uid in s0 && |s0[uid]| >= Entry.OFFSET_DATA && HasSnapshot(a0[xid])
    requires TransactionManager.XidPosition(xid) >= 0
  {
    var t, e := a0[xid], s0[uid];
    var step := LockTable.AddEffect(l0, xid, uid);
    var aborted := a0[xid := t.(err := Some(ConcurrentUpdate), autoAborted := true)];
    var rolledBack := WriteAt(f0, TransactionManager.XidPosition(xid), [TransactionManager.FIELD_TRAN_ROLLBACK]);
    if step.r.Err? then
      r == Err(ConcurrentUpdate) && a1 == aborted && s1 == s0 && f1 == rolledBack
      && l1 == LockTable.Release(step.t, xid, true)
    else if step.r == Ok(LockTable.Waiting) then
      r == Ok(Blocked) && a1 == a0 && s1 == s0 && f1 == f0 && l1 == step.t
    else if Entry.Xmax(e) == xid then
      r == Ok(Deleted(false)) && a1 == a0 && s1 == s0 && f1 == f0 && l1 == step.t
    else if IsVersionSkip(Committed(f0), t, Entry.Xmax(e)) then
      r == Err(ConcurrentUpdate) && a1 == aborted && s1 == s0 && f1 == rolledBack
      && l1 == LockTable.Release(step.t, xid, true)
    else
      r == Ok(Deleted(true)) && a1 == a0 && f1 == f0 && l1 == step.t
      && s1 == s0[uid := Entry.SetXmaxImage(e, xid)]
  }

  class VersionManagerImpl {
    const tm: TransactionManager.XidFile
    const locks: LockTable.LockTable
    /** `activeTransaction` */
    var active: map<I64, Transaction>
    /** The versions the data manager holds, by uid. */
    var store: map<I64, seq<Byte>>
    /** How often each xid was rolled back. */
    ghost var rollbacks: map<I64, nat>

    /**
     * Every registered xid was issued and carries a snapshot when its level
     * needs one; an auto-aborted one has its error stored; every stored
     * version has room for both xids; no xid was rolled back twice, and a
     * registered xid that was not auto-aborted was not rolled back at all.
     */
    ghost predicate Valid()
      reads this, tm
    {
      ValidExcept({})
    }

    /** `Valid`, except that the xids of `pending` may have been rolled back before being marked auto-aborted. */
    ghost predicate ValidExcept(pending: set<I64>)
      reads this, tm
    {
      && 0 <= tm.xidCounter && TransactionManager.XID_HEADER_LENGTH + tm.xidCounter < TWO_63
      && (forall x :: x in active ==> 0 <= x <= tm.xidCounter && HasSnapshot(active[x]) && active[x].xid == x)
      && (forall x :: x in active && active[x].autoAborted ==> active[x].err.Some?)
      && (forall u :: u in store ==> |store[u]| >= Entry.OFFSET_DATA)
      && (forall x :: x in rollbacks ==> rollbacks[x] == 1 && 0 <= x <= tm.xidCounter)
      && (forall x :: x in active && x !in pending && !active[x].autoAborted ==> x !in rollbacks)
    }

    /** The super transaction 0 is registered at level 0, with no snapshot. */
    constructor (tm: TransactionManager.XidFile, locks: LockTable.LockTable, store: map<I64, seq<Byte>>)
      requires tm.Valid()
      requires forall u :: u in store ==> |store[u]| >= Entry.OFFSET_DATA
      ensures Valid()
      ensures this.tm == tm && this.locks == locks && this.store == store
      ensures active == map[TransactionManager.SUPER_XID := NewTransaction(TransactionManager.SUPER_XID, 0, None)]
    {
      this.tm := tm;
      this.locks := locks;
      this.store := store;
      active := map[TransactionManager.SUPER_XID := NewTransaction(TransactionManager.SUPER_XID, 0, None)];
      rollbacks := map[];
    }

    /**
     * `begin(level)`: the next xid is issued and registered; above level 0
     * its snapshot is every xid registered at that moment.
     */
    method Begin(level: I32) returns (xid: I64)
      requires Valid() && tm.Valid()
      requires TransactionManager.XID_HEADER_LENGTH + tm.xidCounter + 1 < TWO_63
      modifies tm, this`active
      ensures Valid() && tm.Valid()
      ensures xid == old(tm.xidCounter) + 1 && xid !in old(active)
      ensures active == old(active)[xid := NewTransaction(xid, level, Some(old(active).Keys))]
      ensures tm.file == TransactionManager.BeginImage(old(tm.file), old(tm.xidCounter))
    {
      xid := tm.Begin();
      active := active[xid := NewTransaction(xid, level, Some(active.Keys))];
    }

    /**
     * `read(xid, uid)`: the payload of the version when `xid` sees it, else
     * none. A stored error is rethrown first; an unregistered xid or a uid
     * holding no valid version is dereferenced as null.
     */
    method Read(xid: I64, uid: I64) returns (r: Result<Option<seq<Byte>>>)
      requires Valid()
      ensures xid !in active ==> r == Err(NullPointer)
      ensures xid in active && active[xid].err.Some? ==> r == Err(active[xid].err.value)
      ensures xid in active && active[xid].err.None? && uid !in store ==> r == Err(NullPointer)
      ensures xid in active && active[xid].err.None? && uid in store ==>
        var e := store[uid];
        r == Ok(if IsVisible(Committed(tm.file), active[xid], Entry.Xmin(e), Entry.Xmax(e))
                then Some(Entry.Payload(e)) else None)
    {
      if xid !in active {
        return Err(NullPointer);
      }
      var t := active[xid];
      if t.err.Some? {
        return Err(t.err.value);
      }
      if uid !in store {
        return Err(NullPointer);
      }
      var e := store[uid];
      if IsVisible(Committed(tm.file), t, Entry.Xmin(e), Entry.Xmax(e)) {
        return Ok(Some(Entry.Payload(e)));
      }
      return Ok(None);
    }

    /**
     * `insert(xid, data)`: the version created by `xid` is stored under the
     * uid the data manager assigns, `uid`, which holds no version yet.
     */
    method Insert(xid: I64, data: seq<Byte>, uid: I64) returns (r: Result<I64>)
      requires Valid() && uid !in store
      modifies this`store
      ensures Valid()
      ensures xid !in active ==> r == Err(NullPointer) && store == old(store)
      ensures xid in active && active[xid].err.Some? ==> r == Err(active[xid].err.value) && store == old(store)
      ensures xid in active && active[xid].err.None? ==>
        r == Ok(uid) && store == old(store)[uid := Entry.WrapEntryRaw(xid, data)]
    {
      if xid !in active {
        return Err(NullPointer);
      }
      if active[xid].err.Some? {
        return Err(active[xid].err.value);
      }
      store := store[uid := Entry.WrapEntryRaw(xid, data)];
      r := Ok(uid);
    }

    /**
     * `internAbort(xid, autoAbort)`: a manual abort unregisters `xid`; an
     * automatic one keeps it registered. Unless `xid` was auto-aborted
     * before, its locks are released and it is rolled back.
     */
    method InternAbort(xid: I64, autoAbort: bool) returns (r: Result<()>)
      requires Valid()
      modifies this`active, this`rollbacks, locks, tm`file
      ensures ValidExcept(if autoAbort then {xid} else {})
      ensures old(xid !in active) ==>
        && r == Err(NullPointer) && active == old(active) && tm.file == old(tm.file)
        && locks.State() == old(locks.State()) && rollbacks == old(rollbacks)
      ensures old(xid in active) ==>
        && r == Ok(())
        && active == (if autoAbort then old(active) else old(active) - {xid})
      ensures old(xid in active) && old(active[xid].autoAborted) ==>
        tm.file == old(tm.file) && locks.State() == old(locks.State()) && rollbacks == old(rollbacks)
      ensures old(xid in active) && !old(active[xid].autoAborted) ==>
        && tm.file == WriteAt(old(tm.file), TransactionManager.XidPosition(xid), [TransactionManager.FIELD_TRAN_ROLLBACK])
        && locks.State() == LockTable.Release(old(locks.State()), xid, true)
        && rollbacks == old(rollbacks)[xid := 1]
    {
      if xid !in active {
        return Err(NullPointer);
      }
      var t := active[xid];
      if !autoAbort {
        active := active - {xid};
      }
      if t.autoAborted {
        return Ok(());
      }
      Undo(xid);
      r := Ok(());
    }

    /** The rollback step of `internAbort`: the locks of `xid` are released and it is marked rolled back. */
    method Undo(xid: I64)
      requires 0 <= xid <= tm.xidCounter && TransactionManager.XID_HEADER_LENGTH + tm.xidCounter < TWO_63
      modifies this`rollbacks, locks, tm`file
      ensures TransactionManager.XidPosition(xid) >= 0
      ensures tm.file == WriteAt(old(tm.file), TransactionManager.XidPosition(xid), [TransactionManager.FIELD_TRAN_ROLLBACK])
      ensures locks.State() == LockTable.Release(old(locks.State()), xid, true)
      ensures rollbacks == old(rollbacks)[xid := 1]
    {
      locks.Remove(xid);
      TransactionManager.XidPositionSlot(xid);
      tm.Rollback(xid);
      rollbacks := rollbacks[xid := 1];
    }

    /** `abort(xid)`: a manual abort. */
    method Abort(xid: I64) returns (r: Result<()>)
      requires Valid()
      modifies this`active, this`rollbacks, locks, tm`file
      ensures Valid()
      ensures old(tm.Valid()) && xid != TransactionManager.SUPER_XID ==> tm.Valid()
      ensures xid !in active
      ensures r.Ok? <==> old(xid in active)
      ensures old(xid in active) && old(active[xid].autoAborted) ==> tm.file == old(tm.file)
      ensures old(xid in active) && !old(active[xid].autoAborted) ==>
        tm.file == WriteAt(old(tm.file), TransactionManager.XidPosition(xid), [TransactionManager.FIELD_TRAN_ROLLBACK])
    {
      r := InternAbort(xid, false);
    }

    /**
     * The concurrent-update path of `delete`: the error is stored, the
     * transaction is aborted automatically and marked so, and the error is
     * thrown. `xid` stays registered.
     */
    method AutoAbort(xid: I64) returns (r: Result<DeleteOutcome>)
      requires Valid() && xid in active && !active[xid].autoAborted
      modifies this`active, this`rollbacks, locks, tm`file
      ensures Valid()
      ensures r == Err(ConcurrentUpdate)
      ensures active == old(active)[xid := old(active[xid]).(err := Some(ConcurrentUpdate), autoAborted := true)]
      ensures tm.file == WriteAt(old(tm.file), TransactionManager.XidPosition(xid), [TransactionManager.FIELD_TRAN_ROLLBACK])
      ensures locks.State() == LockTable.Release(old(locks.State()), xid, true)
      ensures rollbacks == old(rollbacks)[xid := 1]
    {
      active := active[xid := active[xid].(err := Some(ConcurrentUpdate))];
      var _ := InternAbort(xid, true);
      active := active[xid := active[xid].(autoAborted := true)];
      r := Err(ConcurrentUpdate);
    }

    /**
     * The part of `delete` after the row lock is held: a version `xid`
     * already deleted is left alone; a version skip aborts `xid`; otherwise
     * `xid` becomes the version's deleter. A thread that waited for the lock
     * resumes here.
     */
    method FinishDelete(xid: I64, uid: I64) returns (r: Result<DeleteOutcome>)
      requires Valid() && xid in active && uid in store && !active[xid].autoAborted
      modifies this`active, this`store, this`rollbacks, locks, tm`file
      ensures Valid()
      ensures var t, e := old(active[xid]), old(store[uid]);
        && (Entry.Xmax(e) == xid ==> r == Ok(Deleted(false)) && unchanged(this, tm, locks))
        && (Entry.Xmax(e) != xid && IsVersionSkip(Committed(old(tm.file)), t, Entry.Xmax(e)) ==>
              && r == Err(ConcurrentUpdate) && store == old(store)
              && active == old(active)[xid := t.(err := Some(ConcurrentUpdate), autoAborted := true)]
              && tm.file == WriteAt(old(tm.file), TransactionManager.XidPosition(xid), [TransactionManager.FIELD_TRAN_ROLLBACK])
              && locks.State() == LockTable.Release(old(locks.State()), xid, true))
        && (Entry.Xmax(e) != xid && !IsVersionSkip(Committed(old(tm.file)), t, Entry.Xmax(e)) ==>
              && r == Ok(Deleted(true)) && active == old(active) && tm.file == old(tm.file)
              && locks.State() == old(locks.State())
              && store == old(store)[uid := Entry.SetXmaxImage(e, xid)])
    {
      var t, e := active[xid], store[uid];
      if Entry.Xmax(e) == xid {
        return Ok(Deleted(false));
      }
      if IsVersionSkip(Committed(tm.file), t, Entry.Xmax(e)) {
        r := AutoAbort(xid);
        return;
      }
      store := store[uid := Entry.SetXmaxImage(e, xid)];
      r := Ok(Deleted(true));
    }

    /**
     * `delete(xid, uid)`: a stored error is rethrown; a version `xid` does
     * not see is not deleted; otherwise the row lock is taken and the
     * delete goes on under it.
     */
    method Delete(xid: I64, uid: I64) returns (r: Result<DeleteOutcome>)
      requires Valid()
      modifies this`active, this`store, this`rollbacks, locks, tm`file
      ensures Valid()
      ensures xid !in old(active) ==> r == Err(NullPointer) && unchanged(this, tm, locks)
      ensures xid in old(active) && old(active[xid].err).Some? ==>
        r == Err(old(active[xid].err).value) && unchanged(this, tm, locks)
      ensures xid in old(active) && old(active[xid].err).None? && uid !in old(store) ==>
        r == Err(NullPointer) && unchanged(this, tm, locks)
      ensures xid in old(active) && old(active[xid].err).None? && uid in old(store) &&
              !IsVisible(Committed(old(tm.file)), old(active[xid]), Entry.Xmin(old(store[uid])), Entry.Xmax(old(store[uid]))) ==>
        r == Ok(Deleted(false)) && unchanged(this, tm, locks)
      ensures xid in old(active) && old(active[xid].err).None? && uid in old(store) &&
              IsVisible(Committed(old(tm.file)), old(active[xid]), Entry.Xmin(old(store[uid])), Entry.Xmax(old(store[uid]))) ==>
        LockedDelete(old(active), old(store), old(tm.file), old(locks.State()), xid, uid, r, active, store, tm.file, locks.State())
    {
      if xid !in active {
        return Err(NullPointer);
      }
      var t := active[xid];
      if t.err.Some? {
        return Err(t.err.value);
      }
      if uid !in store {
        return Err(NullPointer);
      }
      var e := store[uid];
      if !IsVisible(Committed(tm.file), t, Entry.Xmin(e), Entry.Xmax(e)) {
        return Ok(Deleted(false));
      }
      r := LockThenDelete(xid, uid);
    }

    /**
     * The rest of `delete` once the version is visible: the row lock is
     * taken; a deadlock aborts `xid`, a held lock makes it wait, and with
     * the lock held the delete finishes.
     */
    method LockThenDelete(xid: I64, uid: I64) returns (r: Result<DeleteOutcome>)
      requires Valid() && xid in active && active[xid].err.None? && uid in store
      modifies this`active, this`store, this`rollbacks, locks, tm`file
      ensures Valid()
      ensures LockedDelete(old(active), old(store), old(tm.file), old(locks.State()), xid, uid, r, active, store, tm.file, locks.State())
    {
      var added := locks.Add(xid, uid);
      if added.Err? {
        r := AutoAbort(xid);
        return;
      }
      if added.value == LockTable.Waiting {
        return Ok(Blocked);
      }
      r := FinishDelete(xid, uid);
    }

    /**
     * `commit(xid)`: an unregistered xid stops the engine; a stored error
     * is thrown and nothing changes; otherwise `xid` is unregistered, its
     * locks are released and it is marked committed.
     */
    method Commit(xid: I64) returns (r: Result<()>)
      requires Valid()
      modifies this`active, locks, tm`file
      ensures Valid()
      ensures old(tm.Valid()) && xid != TransactionManager.SUPER_XID ==> tm.Valid()
      ensures xid !in old(active) ==> r == Err(Panic) && unchanged(this, tm, locks)
      ensures xid in old(active) && old(active[xid].err).Some? ==>
        r == Err(old(active[xid].err).value) && unchanged(this, tm, locks)
      ensures xid in old(active) && old(active[xid].err).None? ==>
        && r == Ok(())
        && active == old(active) - {xid}
        && locks.State() == LockTable.Release(old(locks.State()), xid, true)
        && tm.file == WriteAt(old(tm.file), TransactionManager.XidPosition(xid), [TransactionManager.FIELD_TRAN_COMMITTED])
    {
      if xid !in active {
        return Err(Panic);
      }
      var t := active[xid];
      if t.err.Some? {
        return Err(t.err.value);
      }
      active := active - {xid};
      locks.Remove(xid);
      TransactionManager.XidPositionSlot(xid);
      tm.Commit(xid);
      r := Ok(());
    }
  }
}
