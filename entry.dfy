/**
 * A version of a row (`Entry`): the payload of a data item laid out as
 * `[xmin 8][xmax 8][data]`, the creating and the deleting xid as big-endian
 * longs. `xmax` 0 means the version is not deleted.
 */
module Entry {
  import opened Bytes
  import opened Pages
  import CommonPage
  import DataItem
  import Logger
  import opened LogRecords
  import TransactionManager

  const OFFSET_XMIN: int := 0
  const OFFSET_XMAX: int := OFFSET_XMIN + 8
  const OFFSET_DATA: int := OFFSET_XMAX + 8

  /** `wrapEntryRaw`: a version created by `xid` and not yet deleted. */
  function WrapEntryRaw(xid: I64, raw: seq<Byte>): (r: seq<Byte>)
    ensures |r| == OFFSET_DATA + |raw|
  {
    LongToBytes(xid) + LongToBytes(TransactionManager.SUPER_XID) + raw
  }

  /** `getXmin` on a version's bytes. */
  function Xmin(e: seq<Byte>): I64
    requires |e| >= OFFSET_DATA
  {
    ParseLong(e[OFFSET_XMIN..OFFSET_XMAX])
  }

  /** `getXmax` on a version's bytes. */
  function Xmax(e: seq<Byte>): I64
    requires |e| >= OFFSET_DATA
  {
    ParseLong(e[OFFSET_XMAX..OFFSET_DATA])
  }

  /** `data`: a copy of what follows the two xids. */
  function Payload(e: seq<Byte>): seq<Byte>
    requires |e| >= OFFSET_DATA
  {
    e[OFFSET_DATA..]
  }

  /** The bytes of a version after `setXmax(xid)`. */
  function SetXmaxImage(e: seq<Byte>, xid: I64): (r: seq<Byte>)
    requires |e| >= OFFSET_DATA
    ensures |r| == |e|
    ensures r[..OFFSET_XMAX] == e[..OFFSET_XMAX] && r[OFFSET_DATA..] == e[OFFSET_DATA..]
  {
    e[..OFFSET_XMAX] + LongToBytes(xid) + e[OFFSET_DATA..]
  }

  /** A wrapped version reads back its creator, no deleter, and its payload. */
  lemma WrapEntryFields(xid: I64, raw: seq<Byte>)
    ensures Xmin(WrapEntryRaw(xid, raw)) == xid
    ensures Xmax(WrapEntryRaw(xid, raw)) == TransactionManager.SUPER_XID
    ensures Payload(WrapEntryRaw(xid, raw)) == raw
  {
    var e := WrapEntryRaw(xid, raw);
    assert e[OFFSET_XMIN..OFFSET_XMAX] == LongToBytes(xid);
    assert e[OFFSET_XMAX..OFFSET_DATA] == LongToBytes(TransactionManager.SUPER_XID);
    LongRoundTrip(xid);
    LongRoundTrip(TransactionManager.SUPER_XID);
  }

  /** Setting the deleter changes only the deleter. */
  lemma SetXmaxFields(e: seq<Byte>, xid: I64)
    requires |e| >= OFFSET_DATA
    ensures Xmax(SetXmaxImage(e, xid)) == xid
    ensures Xmin(SetXmaxImage(e, xid)) == Xmin(e)
    ensures Payload(SetXmaxImage(e, xid)) == Payload(e)
  {
    var r := SetXmaxImage(e, xid);
    assert r[OFFSET_XMAX..OFFSET_DATA] == LongToBytes(xid);
    assert r[OFFSET_XMIN..OFFSET_XMAX] == e[OFFSET_XMIN..OFFSET_XMAX];
    LongRoundTrip(xid);
  }

  /** A version held in a data item: its bytes are the item's payload. */
  class Entry {
    const uid: I64
    const item: DataItem.DataItemImpl

    constructor (uid: I64, item: DataItem.DataItemImpl)
      ensures this.uid == uid && this.item == item
    {
      this.uid := uid;
      this.item := item;
    }

    /** The item is well placed and its payload has room for both xids. */
    ghost predicate Valid()
      reads this, item, item.page
    {
      && item.Valid()
      && item.end - item.start >= DataItem.OFFSET_DATA + OFFSET_DATA
    }

    /** The version's bytes, read through the item's page. */
    function Raw(): seq<Byte>
      reads this, item, item.page, item.page.data
      requires Valid()
    {
      item.Raw()[DataItem.OFFSET_DATA..]
    }

    /**
     * `setXmax`: inside the item's `before`/`after` pair, the deleter field
     * is overwritten in the page and an update record for the item is logged
     * under `xid`. No other byte of the page changes.
     */
    method SetXmax(xid: I64, lg: Logger.LogFile)
      requires Valid() && lg.position >= 0
      modifies item.page, item.oldRaw, item.page.data, lg`file, lg`position, lg`xChecksum
      ensures Valid()
      ensures Raw() == SetXmaxImage(old(Raw()), xid)
      ensures item.page.data[..] ==
        CommonPage.Overwrite(old(item.page.data[..]), item.start + DataItem.OFFSET_DATA + OFFSET_XMAX, LongToBytes(xid))
      ensures item.page.dirty
      ensures item.oldRaw[..] == old(item.Raw())
      ensures lg.file == Logger.AfterLog(old(lg.file), old(lg.position), old(lg.xChecksum),
                                        LogUpdate(xid, item.uid, old(item.Raw()), item.Raw()))
    {
      item.Before();
      CommonPage.CopyInto(item.page, LongToBytes(xid), item.start + DataItem.OFFSET_DATA + OFFSET_XMAX);
      assert item.Raw()[DataItem.OFFSET_DATA..] == SetXmaxImage(old(Raw()), xid);
      item.After(xid, lg);
    }
  }
}
