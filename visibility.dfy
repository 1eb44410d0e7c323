/**
 * Version visibility (`Visibility`). A version carries the xid that created
 * it (`xmin`) and the xid that deleted it (`xmax`, 0 while undeleted). The
 * rules depend only on the reading transaction, those two xids and which
 * xids the transaction manager reports committed, given here as the
 * predicate `committed`.
 */
module Visibility {
  import opened Bytes
  import opened Outcomes
  import opened Transactions
  import TransactionManager

  const READ_COMMITTED: int := 0
  const REPEATABLE_READ: int := 1

  /** A transaction above read-committed carries a snapshot. */
  predicate HasSnapshot(t: Transaction)
  {
    t.level != READ_COMMITTED ==> t.snapshot.Some?
  }

  /**
   * `readCommitted`: a transaction sees its own undeleted versions, and the
   * versions of committed creators that are undeleted or deleted by another
   * transaction that has not committed.
   */
  function ReadCommitted(committed: I64 -> bool, t: Transaction, xmin: I64, xmax: I64): (r: bool)
    ensures xmin == t.xid && xmax == 0 ==> r
    ensures t.xid != TransactionManager.SUPER_XID && xmax == t.xid ==> !r
    ensures !committed(xmin) ==> (r <==> xmin == t.xid && xmax == 0)
    ensures committed(xmin) && xmax == 0 ==> r
    ensures committed(xmin) && xmax != 0 && xmax != t.xid ==> (r <==> !committed(xmax))
  {
    if xmin == t.xid && xmax == 0 then true
    else if committed(xmin) then
      xmax == 0 || (xmax != t.xid && !committed(xmax))
    else false
  }

  /**
   * `repeatableRead` as the source writes it: the snapshot test on the
   * creator is made on the reader's own xid, which is never in its own
   * snapshot, so a creator that was still active when the reader began
   * becomes visible as soon as it commits.
   */
  function RepeatableReadAsWritten(committed: I64 -> bool, t: Transaction, xmin: I64, xmax: I64): (r: bool)
    requires t.snapshot.Some?
    ensures xmin == t.xid && xmax == 0 ==> r
    ensures xmin != t.xid && (!committed(xmin) || xmin > t.xid) ==> !r
  {
    if xmin == t.xid && xmax == 0 then true
    else if committed(xmin) && xmin < t.xid && !IsInSnapshot(t, t.xid) then
      xmax == 0 || (xmax != t.xid && (!committed(xmax) || xmax > t.xid || IsInSnapshot(t, xmax)))
    else false
  }

  /**
   * `repeatableRead` as its documentation states it: besides its own
   * undeleted versions, a transaction sees a version whose creator committed,
   * began earlier and had finished when the reader began, unless it was
   * deleted by the reader or by a committed deleter the reader could see.
   */
  function RepeatableRead(committed: I64 -> bool, t: Transaction, xmin: I64, xmax: I64): (r: bool)
    requires t.snapshot.Some?
    ensures xmin == t.xid && xmax == 0 ==> r
    ensures t.xid != TransactionManager.SUPER_XID && xmax == t.xid ==> !r
    ensures xmin != t.xid && (!committed(xmin) || xmin > t.xid || IsInSnapshot(t, xmin)) ==> !r
  {
    if xmin == t.xid && xmax == 0 then true
    else if committed(xmin) && xmin < t.xid && !IsInSnapshot(t, xmin) then
      xmax == 0 || (xmax != t.xid && (!committed(xmax) || xmax > t.xid || IsInSnapshot(t, xmax)))
    else false
  }

  /** `isVisible`: level 0 reads committed, every other level reads repeatably. */
  function IsVisible(committed: I64 -> bool, t: Transaction, xmin: I64, xmax: I64): (r: bool)
    requires HasSnapshot(t)
    ensures t.level == READ_COMMITTED ==> r == ReadCommitted(committed, t, xmin, xmax)
    ensures t.level != READ_COMMITTED ==> r == RepeatableRead(committed, t, xmin, xmax)
  {
    if t.level == READ_COMMITTED then ReadCommitted(committed, t, xmin, xmax)
    else RepeatableRead(committed, t, xmin, xmax)
  }

  /**
   * Between two moments of a repeatable-read transaction the set of
   * committed xids can only grow by xids it cannot see: later ones and ones
   * in its snapshot. Every such growth leaves what it sees unchanged.
   */
  predicate CommitsUnseenBy(t: Transaction, c0: I64 -> bool, c1: I64 -> bool)
    requires t.snapshot.Some?
  {
    forall x: I64 :: c0(x) != c1(x) ==>
      !c0(x) && x != t.xid && (x > t.xid || IsInSnapshot(t, x))
  }

  /** Repeatable read is repeatable: later commits of unseen xids change nothing. */
  lemma RepeatableReadStable(c0: I64 -> bool, c1: I64 -> bool, t: Transaction, xmin: I64, xmax: I64)
    requires t.snapshot.Some?
    requires CommitsUnseenBy(t, c0, c1)
    ensures RepeatableRead(c0, t, xmin, xmax) == RepeatableRead(c1, t, xmin, xmax)
  {
    if c0(xmin) != c1(xmin) {
      assert xmin > t.xid || IsInSnapshot(t, xmin);
    }
    if c0(xmax) != c1(xmax) {
      assert xmax > t.xid || IsInSnapshot(t, xmax);
    }
  }

  /**
   * The rule as written is not repeatable: xid 2 began while xid 1 was
   * active; version (1, 0) is hidden from it until 1 commits and shown
   * afterwards, although the commit is one the reader must not see.
   */
  lemma RepeatableReadAsWrittenNotStable()
    ensures var t := NewTransaction(2, REPEATABLE_READ, Some({0, 1}));
            var c0: I64 -> bool := x => false;
            var c1: I64 -> bool := x => x == 1;
            && CommitsUnseenBy(t, c0, c1)
            && !RepeatableReadAsWritten(c0, t, 1, 0)
            && RepeatableReadAsWritten(c1, t, 1, 0)
  {
    var t := NewTransaction(2, REPEATABLE_READ, Some({0, 1}));
    assert IsInSnapshot(t, 1);
    assert !IsInSnapshot(t, 2);
  }

  /**
   * A transaction begun over the registered xids, itself not yet among
   * them, is never in its own snapshot.
   */
  lemma OwnXidNotInSnapshot(xid: I64, level: I32, active: set<I64>)
    requires xid !in active && level != READ_COMMITTED
    ensures !IsInSnapshot(NewTransaction(xid, level, Some(active)), xid)
  {
  }

  /**
   * Where the rule as written and the documented rule part: for a reader
   * not in its own snapshot, the documented rule sees a version exactly
   * when the rule as written does and the creator is not in the snapshot.
   */
  lemma RepeatableReadAgrees(committed: I64 -> bool, t: Transaction, xmin: I64, xmax: I64)
    requires t.snapshot.Some? && !IsInSnapshot(t, t.xid)
    ensures RepeatableRead(committed, t, xmin, xmax)
        <==> RepeatableReadAsWritten(committed, t, xmin, xmax) && !IsInSnapshot(t, xmin)
  {
  }

  /**
   * `isVersionSkip` as the source writes it: the snapshot test on the
   * deleter is made on the reader's own xid, so only a later deleter counts.
   */
  function VersionSkipAsWritten(committed: I64 -> bool, t: Transaction, xmax: I64): (r: bool)
    requires HasSnapshot(t)
    ensures t.level == READ_COMMITTED ==> !r
    ensures r ==> committed(xmax)
  {
    if t.level == READ_COMMITTED then false
    else committed(xmax) && (xmax > t.xid || IsInSnapshot(t, t.xid))
  }

  /**
   * `isVersionSkip` as intended: above read-committed, the version was
   * already deleted by a committed transaction the reader cannot see, so
   * deleting it again would skip over that deletion.
   */
  function IsVersionSkip(committed: I64 -> bool, t: Transaction, xmax: I64): (r: bool)
    requires HasSnapshot(t)
    ensures t.level == READ_COMMITTED ==> !r
    ensures t.level != READ_COMMITTED ==>
      (r <==> committed(xmax) && (xmax > t.xid || IsInSnapshot(t, xmax)))
  {
    if t.level == READ_COMMITTED then false
    else committed(xmax) && (xmax > t.xid || IsInSnapshot(t, xmax))
  }

  /**
   * Where the skip tests part: for a reader not in its own snapshot, the
   * intended test also flags a committed deleter in the snapshot, which the
   * test as written misses; on every other deleter the two agree.
   */
  lemma VersionSkipAgrees(committed: I64 -> bool, t: Transaction, xmax: I64)
    requires HasSnapshot(t) && (t.level != READ_COMMITTED ==> !IsInSnapshot(t, t.xid))
    ensures IsVersionSkip(committed, t, xmax)
        <==> VersionSkipAsWritten(committed, t, xmax)
             || (t.level != READ_COMMITTED && committed(xmax) && IsInSnapshot(t, xmax))
  {
  }

  /**
   * Above read-committed, a version the reader sees that some other
   * transaction has deleted and committed is always a version skip.
   */
  lemma VisibleCommittedDeleteIsSkip(committed: I64 -> bool, t: Transaction, xmin: I64, xmax: I64)
    requires t.level != READ_COMMITTED && t.snapshot.Some?
    requires IsVisible(committed, t, xmin, xmax)
    requires xmax != 0 && xmax != t.xid && committed(xmax)
    ensures IsVersionSkip(committed, t, xmax)
  {
  }

  /**
   * The skip test as written misses a deleter that committed after the
   * reader began but was active at that moment: xid 3 sees version (1, 2)
   * because 2 is in its snapshot, yet deleting it is not flagged.
   */
  lemma VersionSkipAsWrittenMisses()
    ensures var t := NewTransaction(3, REPEATABLE_READ, Some({0, 2}));
            var c: I64 -> bool := x => x == 1 || x == 2;
            && IsVisible(c, t, 1, 2)
            && IsVersionSkip(c, t, 2)
            && !VersionSkipAsWritten(c, t, 2)
  {
    var t := NewTransaction(3, REPEATABLE_READ, Some({0, 2}));
    assert IsInSnapshot(t, 2);
    assert !IsInSnapshot(t, 1);
    assert !IsInSnapshot(t, 3);
  }
}
