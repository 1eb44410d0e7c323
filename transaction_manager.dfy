/**
 * The transaction status file (`MDBTransactionManager`): an 8-byte
 * big-endian counter of issued xids, followed by one status byte per xid.
 * The file is an in-memory byte sequence.
 */
module TransactionManager {
  import opened Bytes
  import opened Outcomes

  const XID_HEADER_LENGTH: int := 8
  const XID_FIELD_SIZE: int := 1
  const FIELD_TRAN_ACTIVE: Byte := 0
  const FIELD_TRAN_COMMITTED: Byte := 1
  const FIELD_TRAN_ROLLBACK: Byte := 2
  const SUPER_XID: int := 0

  /** `getXidPosition`: the status byte of `xid`, in Java `long` arithmetic. */
  function XidPosition(xid: I64): I64
  {
    Wrap64(XID_HEADER_LENGTH + Wrap64((xid - 1) * XID_FIELD_SIZE))
  }

  /** For every xid the engine hands out, the slot is byte 8 + (xid - 1). */
  lemma XidPositionSlot(xid: I64)
    requires 0 <= xid && XID_HEADER_LENGTH + xid <= TWO_63
    ensures XidPosition(xid) == 8 + (xid - 1)
    ensures xid >= 1 ==> XidPosition(xid) >= XID_HEADER_LENGTH
  {
  }

  /**
   * `checkXidCounter`: the open-time check. A file shorter than the header,
   * or whose length is not where the slot after the last issued xid would
   * start, is refused; otherwise the counter is read from the header.
   */
  function CheckXidCounter(file: seq<Byte>): (r: Result<I64>)
    requires |file| < TWO_63
    ensures r.Ok? <==> |file| >= XID_HEADER_LENGTH && |file| == XID_HEADER_LENGTH + ParseLong(file[..8])
    ensures r.Ok? ==> r.value == |file| - XID_HEADER_LENGTH && r.value >= 0
    ensures r.Err? ==> r.error == BadXidFile
  {
    if |file| < XID_HEADER_LENGTH then Err(BadXidFile)
    else
      var counter := ParseLong(file[..XID_HEADER_LENGTH]);
      var end := XidPosition(Wrap64(counter + 1));
      CounterEnd(counter, |file|);
      if end != |file| then Err(BadXidFile) else Ok(counter)
  }

  /** The slot after the last issued xid starts at a given length exactly when the header counts the xids. */
  lemma CounterEnd(counter: I64, length: nat)
    requires length < TWO_63
    ensures XidPosition(Wrap64(counter + 1)) == length <==> length == XID_HEADER_LENGTH + counter
  {
    if counter < TWO_63 - 1 {
      assert Wrap64(counter + 1) == counter + 1;
      assert Wrap64(counter * XID_FIELD_SIZE) == counter;
    } else {
      assert Wrap64(counter + 1) == -TWO_63;
    }
  }

  /** `create`: eight zero bytes written at the start of the (possibly existing) file. */
  function CreatedFile(existing: seq<Byte>): (r: seq<Byte>)
  {
    WriteAt(existing, 0, seq(XID_HEADER_LENGTH, _ => 0))
  }

  /** A newly created file opens with counter 0 exactly when no older, longer file was there. */
  lemma CreatedFileOpens(existing: seq<Byte>)
    requires |existing| < TWO_63
    ensures |existing| <= XID_HEADER_LENGTH ==> CreatedFile(existing) == seq(8, _ => 0)
    ensures CheckXidCounter(CreatedFile(existing)).Ok? <==> |existing| <= XID_HEADER_LENGTH
    ensures CheckXidCounter(CreatedFile(existing)).Ok? ==> CheckXidCounter(CreatedFile(existing)).value == 0
  {
    var f := CreatedFile(existing);
    assert f[..8] == seq(8, _ => 0);
    BigEndianZero(8);
    assert f[..8] == LongToBytes(0);
    LongRoundTrip(0);
    if |existing| <= XID_HEADER_LENGTH {
      assert f == seq(8, _ => 0);
    }
  }

  /** The status byte `checkXID` reads: nothing read past the end leaves it 0. */
  function StatusByte(file: seq<Byte>, xid: I64): Byte
    requires XidPosition(xid) >= 0
  {
    ReadByte(file, XidPosition(xid))
  }

  /** Every issued xid's slot holds one of the three statuses. */
  ghost predicate StatusesWellFormed(file: seq<Byte>)
  {
    forall i :: XID_HEADER_LENGTH <= i < |file| ==> file[i] <= FIELD_TRAN_ROLLBACK
  }

  /** In a well-formed file every issued xid is in exactly one state. */
  lemma ExactlyOneStatus(file: seq<Byte>, xid: I64)
    requires StatusesWellFormed(file)
    requires 1 <= xid && XID_HEADER_LENGTH + xid <= |file| && |file| < TWO_63
    ensures XidPosition(xid) >= 0
    ensures StatusByte(file, xid) == FIELD_TRAN_ACTIVE
         || StatusByte(file, xid) == FIELD_TRAN_COMMITTED
         || StatusByte(file, xid) == FIELD_TRAN_ROLLBACK
  {
    XidPositionSlot(xid);
  }

  /**
   * The super transaction 0 has no slot of its own: its position is 7, the
   * last byte of the counter, so its status is the counter's low byte.
   */
  lemma SuperXidReadsCounter(file: seq<Byte>)
    requires |file| >= XID_HEADER_LENGTH
    ensures XidPosition(SUPER_XID) == 7
    ensures StatusByte(file, SUPER_XID) == FromBigEndian(file[..8]) % 256
  {
    assert file[..8][..7] == file[..7];
  }

  /** The file after `n` transactions were begun on a freshly created one. */
  function BegunFile(n: nat): (r: seq<Byte>)
    requires n < TWO_63
  {
    LongToBytes(n) + seq(n, _ => FIELD_TRAN_ACTIVE)
  }

  /** What `begin` does to a file whose counter is `counter`. */
  function BeginImage(file: seq<Byte>, counter: I64): seq<Byte>
    requires 0 <= counter < LONG_MAX
  {
    WriteAt(WriteAt(file, XID_HEADER_LENGTH + counter, [FIELD_TRAN_ACTIVE]), 0, LongToBytes(counter + 1))
  }

  /** Each begin on a created file appends one active slot and counts it in the header. */
  lemma {:induction false} BeginsFromCreate(n: nat)
    requires XID_HEADER_LENGTH + n + 1 < TWO_63
    ensures BeginImage(BegunFile(n), n) == BegunFile(n + 1)
    ensures CheckXidCounter(BegunFile(n)) == Ok(n)
    ensures StatusesWellFormed(BegunFile(n))
  {
    var f := BegunFile(n);
    var g := BeginImage(f, n);
    var h := BegunFile(n + 1);
    assert |g| == |h|;
    forall i | 0 <= i < |g| ensures g[i] == h[i] {
      if i >= 8 {
        assert g[i] == 0;
      }
    }
    assert f[..8] == LongToBytes(n);
    LongRoundTrip(n);
  }

  /**
   * As written, the super xid is not always committed: after `n` begins on
   * a created file it reads the counter's low byte, so it is active on a
   * fresh file, committed after one begin and rolled back after two.
   */
  lemma SuperXidFollowsCounter(n: nat)
    requires XID_HEADER_LENGTH + n + 1 < TWO_63
    ensures XidPosition(SUPER_XID) >= 0
    ensures StatusByte(BegunFile(n), SUPER_XID) == n % 256
  {
    var f := BegunFile(n);
    assert f[7] == LongToBytes(n)[7] == BigEndian(n, 8)[7];
  }

  /** The status of an xid with the super xid 0 committed, as the class comment promises. */
  function Status(file: seq<Byte>, xid: I64): Byte
    requires XidPosition(xid) >= 0
  {
    if xid == SUPER_XID then FIELD_TRAN_COMMITTED else StatusByte(file, xid)
  }

  /**
   * After `n` begins on a created file, the super xid is committed and
   * every issued xid is active, whatever `n` is.
   */
  lemma BegunStatuses(n: nat, xid: I64)
    requires XID_HEADER_LENGTH + n + 1 < TWO_63 && 0 <= xid <= n
    ensures XidPosition(xid) >= 0
    ensures Status(BegunFile(n), xid) == if xid == SUPER_XID then FIELD_TRAN_COMMITTED else FIELD_TRAN_ACTIVE
  {
    XidPositionSlot(xid);
    if xid != SUPER_XID {
      assert BegunFile(n)[8 + (xid - 1)] == FIELD_TRAN_ACTIVE;
    }
  }

  class XidFile {
    /** The file contents. */
    var file: seq<Byte>
    /** The last xid issued. */
    var xidCounter: I64

    /** The header holds the counter and there is one slot per issued xid. */
    ghost predicate Valid()
      reads this
    {
      && 0 <= xidCounter
      && |file| == XID_HEADER_LENGTH + xidCounter < TWO_63
      && file[..XID_HEADER_LENGTH] == LongToBytes(xidCounter)
    }

    /** The constructor runs `checkXidCounter`; a file it refuses stops the engine. */
    constructor Open(contents: seq<Byte>)
      requires |contents| < TWO_63
      requires CheckXidCounter(contents).Ok?
      ensures Valid()
      ensures file == contents && xidCounter == |contents| - XID_HEADER_LENGTH
    {
      file := contents;
      xidCounter := CheckXidCounter(contents).value;
      new;
      LongBytesRoundTrip(contents[..8]);
    }

    /** `begin`: the next xid gets an active slot and the counter is rewritten. */
    method Begin() returns (xid: I64)
      requires Valid()
      requires XID_HEADER_LENGTH + xidCounter + 1 < TWO_63
      modifies this
      ensures Valid()
      ensures xid == old(xidCounter) + 1 && xidCounter == xid
      ensures file == BeginImage(old(file), old(xidCounter))
      ensures file == LongToBytes(xid) + old(file)[XID_HEADER_LENGTH..] + [FIELD_TRAN_ACTIVE]
      ensures StatusesWellFormed(old(file)) ==> StatusesWellFormed(file)
    {
      xid := xidCounter + 1;
      XidPositionSlot(xid);
      UpdateXid(xid, FIELD_TRAN_ACTIVE);
      // incrXidCounter
      xidCounter := xidCounter + 1;
      file := WriteAt(file, 0, LongToBytes(xidCounter));
      assert file == LongToBytes(xid) + old(file)[XID_HEADER_LENGTH..] + [FIELD_TRAN_ACTIVE];
    }

    /** `updateXID`: one status byte written at the xid's slot. */
    method UpdateXid(xid: I64, status: Byte)
      requires XidPosition(xid) >= 0
      modifies this`file
      ensures file == WriteAt(old(file), XidPosition(xid), [status])
    {
      file := WriteAt(file, XidPosition(xid), [status]);
    }

    /**
     * `commit`: writes 1 at the xid's slot, whatever the xid. For an issued
     * xid exactly that slot changes; the super xid 0 would overwrite the last
     * counter byte, and a larger xid would grow the file.
     */
    method Commit(xid: I64)
      requires XidPosition(xid) >= 0
      modifies this`file
      ensures file == WriteAt(old(file), XidPosition(xid), [FIELD_TRAN_COMMITTED])
      ensures old(Valid()) && 1 <= xid <= xidCounter ==>
        && Valid()
        && file == old(file)[XID_HEADER_LENGTH + xid - 1 := FIELD_TRAN_COMMITTED]
        && (StatusesWellFormed(old(file)) ==> StatusesWellFormed(file))
    {
      UpdateXid(xid, FIELD_TRAN_COMMITTED);
      if old(Valid()) && 1 <= xid <= xidCounter {
        XidPositionSlot(xid);
        assert file[..XID_HEADER_LENGTH] == old(file)[..XID_HEADER_LENGTH];
      }
    }

    /**
     * `rollback`: writes 2 at the xid's slot, whatever the xid. For an issued
     * xid exactly that slot changes; the super xid 0 would overwrite the last
     * counter byte, and a larger xid would grow the file.
     */
    method Rollback(xid: I64)
      requires XidPosition(xid) >= 0
      modifies this`file
      ensures file == WriteAt(old(file), XidPosition(xid), [FIELD_TRAN_ROLLBACK])
      ensures old(Valid()) && 1 <= xid <= xidCounter ==>
        && Valid()
        && file == old(file)[XID_HEADER_LENGTH + xid - 1 := FIELD_TRAN_ROLLBACK]
        && (StatusesWellFormed(old(file)) ==> StatusesWellFormed(file))
    {
      UpdateXid(xid, FIELD_TRAN_ROLLBACK);
      if old(Valid()) && 1 <= xid <= xidCounter {
        XidPositionSlot(xid);
        assert file[..XID_HEADER_LENGTH] == old(file)[..XID_HEADER_LENGTH];
      }
    }

    /** `isActive` */
    function IsActive(xid: I64): bool
      reads this
      requires XidPosition(xid) >= 0
    {
      StatusByte(file, xid) == FIELD_TRAN_ACTIVE
    }

    /** `isCommitted` */
    function IsCommitted(xid: I64): bool
      reads this
      requires XidPosition(xid) >= 0
    {
      StatusByte(file, xid) == FIELD_TRAN_COMMITTED
    }

    /** `isRollback` */
    function IsRollback(xid: I64): bool
      reads this
      requires XidPosition(xid) >= 0
    {
      StatusByte(file, xid) == FIELD_TRAN_ROLLBACK
    }
  }
}
