/**
 * The two kinds of record the data manager writes to the log (`Recover`'s
 * codecs) and the address a uid packs:
 *   insert  `[0][xid 8][page 4][offset 2][raw]`
 *   update  `[1][xid 8][uid 8][old raw][new raw]`
 * A uid keeps the page number in its high 32 bits and the in-page offset in
 * its low 16.
 */
module LogRecords {
  import opened Bytes
  import opened Outcomes

  const LOG_TYPE_INSERT: Byte := 0
  const LOG_TYPE_UPDATE: Byte := 1

  const OFFSET_TYPE: int := 0
  const OFFSET_XID: int := OFFSET_TYPE + 1
  const OFFSET_PAGE_NO: int := OFFSET_XID + 8
  const OFFSET_OF: int := OFFSET_PAGE_NO + 4
  const OFFSET_INSERT_RAW: int := OFFSET_OF + 2
  const OFFSET_UPDATE_UID: int := OFFSET_XID + 8
  const OFFSET_UPDATE_RAW: int := OFFSET_UPDATE_UID + 8

  /** A parsed log record. */
  datatype LogInfo =
    | InsertLog(xid: I64, pageNumber: I32, offset: I16, raw: seq<Byte>)
    | UpdateLog(xid: I64, pageNumber: I32, offset: I16, oldRaw: seq<Byte>, newRaw: seq<Byte>)

  // ---------------------------------------------------------------- addresses

  /**
   * `Parser.addressToUid`, which is not part of this model: the page number
   * shifted into the high 32 bits, the offset in the low bits.
   */
  function AddressToUid(pageNumber: I32, offset: I16): I64
    requires 0 <= pageNumber && 0 <= offset
  {
    pageNumber * TWO_32 + offset
  }

  /** `(short) (uid & 0xFFFF)` */
  function UidOffset(uid: I64): I16
  {
    Wrap16(ToUnsigned(uid, TWO_63) % TWO_16)
  }

  /** `(int) ((uid >>> 32) & 0xFFFFFFFF)` */
  function UidPage(uid: I64): I32
  {
    Wrap32((ToUnsigned(uid, TWO_63) / TWO_32) % TWO_32)
  }

  /** Decoding a uid gives back the page number and offset it was made from. */
  lemma UidRoundTrip(pageNumber: I32, offset: I16)
    requires 0 <= pageNumber && 0 <= offset
    ensures UidPage(AddressToUid(pageNumber, offset)) == pageNumber
    ensures UidOffset(AddressToUid(pageNumber, offset)) == offset
  {
    var uid := AddressToUid(pageNumber, offset);
    assert ToUnsigned(uid, TWO_63) == pageNumber * TWO_32 + offset;
    assert (pageNumber * TWO_32 + offset) / TWO_32 == pageNumber;
    assert (pageNumber * TWO_32 + offset) % TWO_16 == offset by {
      assert pageNumber * TWO_32 == (pageNumber * TWO_16) * TWO_16;
    }
  }

  // ------------------------------------------------------------------ codecs

  /** `logInsert`, with the page's free offset at logging time given as `offset`. */
  function LogInsert(xid: I64, pageNumber: I32, offset: I16, raw: seq<Byte>): (r: seq<Byte>)
    ensures |r| == OFFSET_INSERT_RAW + |raw|
  {
    [LOG_TYPE_INSERT] + LongToBytes(xid) + IntToBytes(pageNumber) + ShortToBytes(offset) + raw
  }

  /** `logUpdate` */
  function LogUpdate(xid: I64, uid: I64, oldRaw: seq<Byte>, newRaw: seq<Byte>): (r: seq<Byte>)
    ensures |r| == OFFSET_UPDATE_RAW + |oldRaw| + |newRaw|
  {
    [LOG_TYPE_UPDATE] + LongToBytes(xid) + LongToBytes(uid) + oldRaw + newRaw
  }

  /**
   * `parseInsertLog`: the fields at their offsets. A record too short to
   * reach the raw bytes makes `Arrays.copyOfRange` throw.
   */
  function ParseInsertLog(log: seq<Byte>): (r: Result<LogInfo>)
    ensures r.Ok? <==> |log| >= OFFSET_INSERT_RAW
    ensures r.Ok? ==> r.value.InsertLog? && |r.value.raw| == |log| - OFFSET_INSERT_RAW
    ensures r.Err? ==> r.error == Panic
  {
    if |log| < OFFSET_INSERT_RAW then Err(Panic)
    else
      Ok(InsertLog(
        ParseLong(log[OFFSET_XID..OFFSET_PAGE_NO]),
        ParseInt(log[OFFSET_PAGE_NO..OFFSET_OF]),
        ParseShort(log[OFFSET_OF..OFFSET_INSERT_RAW]),
        log[OFFSET_INSERT_RAW..]))
  }

  /**
   * `parseUpdateLog`: the xid, the uid decoded into page and offset, and the
   * tail split into two halves of `(length - 17) / 2` bytes (an odd last
   * byte is dropped). A record shorter than 17 bytes makes
   * `Arrays.copyOfRange` throw.
   */
  function ParseUpdateLog(log: seq<Byte>): (r: Result<LogInfo>)
    ensures r.Ok? <==> |log| >= OFFSET_UPDATE_RAW
    ensures r.Ok? ==> r.value.UpdateLog? && |r.value.oldRaw| == |r.value.newRaw| == (|log| - OFFSET_UPDATE_RAW) / 2
    ensures r.Err? ==> r.error == Panic
  {
    if |log| < OFFSET_UPDATE_RAW then Err(Panic)
    else
      var uid := ParseLong(log[OFFSET_UPDATE_UID..OFFSET_UPDATE_RAW]);
      var len := (|log| - OFFSET_UPDATE_RAW) / 2;
      Ok(UpdateLog(
        ParseLong(log[OFFSET_XID..OFFSET_UPDATE_UID]),
        UidPage(uid),
        UidOffset(uid),
        log[OFFSET_UPDATE_RAW..OFFSET_UPDATE_RAW + len],
        log[OFFSET_UPDATE_RAW + len..OFFSET_UPDATE_RAW + 2 * len]))
  }

  /** An insert record parses back to the fields it was written from. */
  lemma InsertRoundTrip(xid: I64, pageNumber: I32, offset: I16, raw: seq<Byte>)
    ensures ParseInsertLog(LogInsert(xid, pageNumber, offset, raw)) == Ok(InsertLog(xid, pageNumber, offset, raw))
  {
    var log := LogInsert(xid, pageNumber, offset, raw);
    assert log[OFFSET_XID..OFFSET_PAGE_NO] == LongToBytes(xid);
    assert log[OFFSET_PAGE_NO..OFFSET_OF] == IntToBytes(pageNumber);
    assert log[OFFSET_OF..OFFSET_INSERT_RAW] == ShortToBytes(offset);
    assert log[OFFSET_INSERT_RAW..] == raw;
    LongRoundTrip(xid);
    IntRoundTrip(pageNumber);
    ShortRoundTrip(offset);
  }

  /** An insert record is determined by its parse: writing the parsed fields gives the record back. */
  lemma InsertBytesRoundTrip(log: seq<Byte>)
    requires |log| >= OFFSET_INSERT_RAW && log[OFFSET_TYPE] == LOG_TYPE_INSERT
    ensures var i := ParseInsertLog(log).value; LogInsert(i.xid, i.pageNumber, i.offset, i.raw) == log
  {
    LongBytesRoundTrip(log[OFFSET_XID..OFFSET_PAGE_NO]);
    IntBytesRoundTrip(log[OFFSET_PAGE_NO..OFFSET_OF]);
    ShortBytesRoundTrip(log[OFFSET_OF..OFFSET_INSERT_RAW]);
    assert log == [log[0]] + log[OFFSET_XID..OFFSET_PAGE_NO] + log[OFFSET_PAGE_NO..OFFSET_OF]
      + log[OFFSET_OF..OFFSET_INSERT_RAW] + log[OFFSET_INSERT_RAW..];
  }

  /**
   * An update record whose two images have the same length parses back to
   * its xid, the page and offset of its uid, and both images.
   */
  lemma UpdateRoundTrip(xid: I64, pageNumber: I32, offset: I16, oldRaw: seq<Byte>, newRaw: seq<Byte>)
    requires 0 <= pageNumber && 0 <= offset
    requires |oldRaw| == |newRaw|
    ensures ParseUpdateLog(LogUpdate(xid, AddressToUid(pageNumber, offset), oldRaw, newRaw))
         == Ok(UpdateLog(xid, pageNumber, offset, oldRaw, newRaw))
  {
    var uid := AddressToUid(pageNumber, offset);
    var log := LogUpdate(xid, uid, oldRaw, newRaw);
    var len := |oldRaw|;
    assert (|log| - OFFSET_UPDATE_RAW) / 2 == len;
    assert log[OFFSET_XID..OFFSET_UPDATE_UID] == LongToBytes(xid);
    assert log[OFFSET_UPDATE_UID..OFFSET_UPDATE_RAW] == LongToBytes(uid);
    assert log[OFFSET_UPDATE_RAW..OFFSET_UPDATE_RAW + len] == oldRaw;
    assert log[OFFSET_UPDATE_RAW + len..OFFSET_UPDATE_RAW + 2 * len] == newRaw;
    LongRoundTrip(xid);
    LongRoundTrip(uid);
    UidRoundTrip(pageNumber, offset);
  }
}
