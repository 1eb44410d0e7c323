/**
 * The version manager's view of one transaction (`Transaction`): its xid,
 * its isolation level, and, above read-committed, the snapshot of the xids
 * that were active when it began. `err` and `autoAborted` are set later by
 * the version manager.
 */
module Transactions {
  import opened Bytes
  import opened Outcomes
  import TransactionManager

  datatype Transaction = Transaction(
    xid: I64,
    level: I32,
    /** `None` stands for the null snapshot of a read-committed transaction. */
    snapshot: Option<set<I64>>,
    /** The error every later operation rethrows, once one was stored. */
    err: Option<Error>,
    autoAborted: bool)

  /**
   * `newTransaction`: a transaction above level 0 copies the key set of the
   * active map it is given (`None` for a null map); level 0 has no snapshot.
   */
  function NewTransaction(xid: I64, level: I32, active: Option<set<I64>>): (t: Transaction)
    ensures t.xid == xid && t.level == level
    ensures t.err == None && !t.autoAborted
    ensures t.snapshot.Some? <==> level != 0 && active.Some?
    ensures t.snapshot.Some? ==> t.snapshot == active
  {
    Transaction(xid, level, if level != 0 && active.Some? then active else None, None, false)
  }

  /**
   * `isInSnapshot`: the super xid is never in a snapshot. Any other xid is
   * looked up in the snapshot, which a read-committed transaction does not
   * have, so callers ask only at a level above 0.
   */
  function IsInSnapshot(t: Transaction, x: I64): (r: bool)
    requires x == TransactionManager.SUPER_XID || t.snapshot.Some?
    ensures x == TransactionManager.SUPER_XID ==> !r
    ensures x != TransactionManager.SUPER_XID ==> (r <==> x in t.snapshot.value)
  {
    if x == TransactionManager.SUPER_XID then false else x in t.snapshot.value
  }

  /**
   * A repeatable-read transaction begun with active xids `active` sees
   * exactly the non-super members of that set as in its snapshot, whatever
   * happens to the set afterwards.
   */
  lemma SnapshotOfActive(xid: I64, level: I32, active: set<I64>, x: I64)
    requires level != 0
    ensures NewTransaction(xid, level, Some(active)).snapshot.Some?
    ensures IsInSnapshot(NewTransaction(xid, level, Some(active)), x)
        <==> x != TransactionManager.SUPER_XID && x in active
  {
  }
}
