/**
 * Records inside a page (`DataItem`, `DataItemImpl`):
 * `[ValidFlag 1][DataSize 2][Data]`, flag 0 meaning valid. A data item is a
 * window `[start, end)` onto its page's buffer, with a same-sized buffer
 * `oldRaw` that `before` saves the window into.
 */
module DataItem {
  import opened Bytes
  import opened Outcomes
  import opened Pages
  import CommonPage
  import Logger
  import opened LogRecords

  const OFFSET_VALID: int := 0
  const OFFSET_SIZE: int := 1
  const OFFSET_DATA: int := 3

  /** `wrapDataItemRaw`: a valid flag, the length as a Java `short`, then the bytes. */
  function WrapDataItemRaw(raw: seq<Byte>): (r: seq<Byte>)
    ensures |r| == OFFSET_DATA + |raw|
  {
    [0] + ShortToBytes(Wrap16(|raw|)) + raw
  }

  /** A record's flag byte says it is valid. */
  predicate IsValidRaw(s: seq<Byte>)
    requires |s| > OFFSET_VALID
  {
    s[OFFSET_VALID] == 0
  }

  /**
   * A wrapped record is valid, carries its bytes from offset 3, and its size
   * field reads back as its length, for every length a `short` can hold.
   */
  lemma WrapDataItemFields(raw: seq<Byte>)
    ensures IsValidRaw(WrapDataItemRaw(raw))
    ensures WrapDataItemRaw(raw)[OFFSET_DATA..] == raw
    ensures ParseShort(WrapDataItemRaw(raw)[OFFSET_SIZE..OFFSET_DATA]) == Wrap16(|raw|)
    ensures |raw| < TWO_15 ==> ParseShort(WrapDataItemRaw(raw)[OFFSET_SIZE..OFFSET_DATA]) == |raw|
  {
    var w := WrapDataItemRaw(raw);
    assert w[OFFSET_SIZE..OFFSET_DATA] == ShortToBytes(Wrap16(|raw|));
    ShortRoundTrip(Wrap16(|raw|));
  }

  /** `setDataItemRawInvalid`: the flag byte becomes 1 and nothing else changes. */
  method SetDataItemRawInvalid(raw: array<Byte>)
    requires raw.Length > OFFSET_VALID
    modifies raw
    ensures raw[..] == old(raw[..])[OFFSET_VALID := 1]
    ensures !IsValidRaw(raw[..])
  {
    raw[OFFSET_VALID] := 1;
  }

  /**
   * Saving a window and copying it back after any change confined to the
   * window gives back the page exactly.
   */
  lemma UnBeforeRestores(s0: seq<Byte>, s1: seq<Byte>, start: nat, end: nat)
    requires start <= end <= |s0| == |s1|
    requires s1[..start] == s0[..start] && s1[end..] == s0[end..]
    ensures CommonPage.Overwrite(s1, start, s0[start..end]) == s0
  {
    assert s0 == s0[..start] + s0[start..end] + s0[end..];
  }

  class DataItemImpl {
    /** The page the record lies in. */
    const page: Page
    /** Where the record starts in the page. */
    const start: int
    /** Where the record ends in the page. */
    const end: int
    /** The saved image of the record, as long as the record. */
    const oldRaw: array<Byte>
    /** The record's address. */
    const uid: I64

    /** The window lies inside a page-sized buffer and has room for the header. */
    ghost predicate Valid()
      reads this, page
    {
      && page.data.Length == PAGE_SIZE
      && 0 <= start && start + OFFSET_DATA <= end <= PAGE_SIZE
      && oldRaw.Length == end - start
      && oldRaw != page.data
    }

    constructor (page: Page, start: int, end: int, uid: I64)
      requires page.data.Length == PAGE_SIZE
      requires 0 <= start && start + OFFSET_DATA <= end <= PAGE_SIZE
      ensures Valid()
      ensures this.page == page && this.start == start && this.end == end && this.uid == uid
      ensures fresh(oldRaw) && oldRaw[..] == seq(end - start, _ => 0)
    {
      this.page := page;
      this.start := start;
      this.end := end;
      this.uid := uid;
      oldRaw := new Byte[end - start](_ => 0);
    }

    /** The record's current bytes. */
    function Raw(): seq<Byte>
      reads this, page, page.data
      requires Valid()
    {
      page.data[start..end]
    }

    /** `isValid` */
    predicate IsValid()
      reads this, page, page.data
      requires Valid()
    {
      IsValidRaw(Raw())
    }

    /** `data`: a view of the payload that shares the page's buffer. */
    method Data() returns (raw: array<Byte>, from: int, to: int)
      requires Valid()
      ensures raw == page.data && from == start + OFFSET_DATA && to == end
      ensures raw[from..to] == Raw()[OFFSET_DATA..]
    {
      raw, from, to := page.data, start + OFFSET_DATA, end;
    }

    /** `before`: saves the record into `oldRaw` and marks the page dirty. */
    method Before()
      requires Valid()
      modifies page, oldRaw
      ensures Valid()
      ensures oldRaw[..] == Raw()
      ensures page.data[..] == old(page.data[..])
      ensures page.dirty
    {
      forall i | 0 <= i < oldRaw.Length {
        oldRaw[i] := page.data[start + i];
      }
      page.dirty := true;
    }

    /** `unBefore`: copies `oldRaw` back over the record. */
    method UnBefore()
      requires Valid()
      modifies page.data
      ensures Valid()
      ensures page.data[..] == CommonPage.Overwrite(old(page.data[..]), start, oldRaw[..])
      ensures Raw() == oldRaw[..]
    {
      forall i | 0 <= i < oldRaw.Length {
        page.data[start + i] := oldRaw[i];
      }
      assert page.data[..] == old(page.data[..])[..start] + oldRaw[..] + old(page.data[..])[end..];
    }

    /** `after`: logs an update record of the saved and the current image under `xid`. */
    method After(xid: I64, lg: Logger.LogFile)
      requires Valid() && lg.position >= 0
      modifies lg`file, lg`position, lg`xChecksum
      ensures |LogUpdate(xid, uid, oldRaw[..], Raw())| <= Logger.MAX_DATA
      ensures lg.file == Logger.AfterLog(old(lg.file), old(lg.position), old(lg.xChecksum),
                                        LogUpdate(xid, uid, oldRaw[..], Raw()))
      ensures lg.position == old(lg.position) + Logger.OFFSET_DATA + |LogUpdate(xid, uid, oldRaw[..], Raw())|
    {
      var log := LogUpdate(xid, uid, oldRaw[..], page.data[start..end]);
      lg.Log(log);
    }
  }

  /**
   * `parseDateItem` at `offset`: the size field gives the record length
   * `(short) (size + 3)`. An offset or length that leaves the page is a
   * failure.
   */
  method ParseDataItem(page: Page, offset: I16) returns (r: Result<DataItemImpl>)
    requires page.data.Length == PAGE_SIZE
    requires 0 <= page.pageNumber < TWO_31
    ensures r.Ok? <==> 0 <= offset && offset + OFFSET_DATA <= PAGE_SIZE && ItemEnd(page.data[..], offset) <= PAGE_SIZE
    ensures r.Err? ==> r.error == Panic
    ensures r.Ok? ==>
      && fresh(r.value) && fresh(r.value.oldRaw) && r.value.Valid()
      && r.value.page == page && r.value.start == offset
      && r.value.end == ItemEnd(page.data[..], offset)
      && r.value.uid == AddressToUid(page.pageNumber, offset)
  {
    if offset < 0 || offset + OFFSET_DATA > PAGE_SIZE {
      return Err(Panic);
    }
    var size := ParseShort(page.data[offset + OFFSET_SIZE..offset + OFFSET_DATA]);
    var len := Wrap16(size + OFFSET_DATA);
    if len < OFFSET_DATA || offset + len > PAGE_SIZE {
      return Err(Panic);
    }
    var uid := AddressToUid(page.pageNumber, offset);
    var item := new DataItemImpl(page, offset, offset + len, uid);
    r := Ok(item);
  }

  /** Where the record at `offset` ends, by its size field. */
  function ItemEnd(s: seq<Byte>, offset: int): int
    requires 0 <= offset && offset + OFFSET_DATA <= |s|
  {
    var len := Wrap16(ParseShort(s[offset + OFFSET_SIZE..offset + OFFSET_DATA]) + OFFSET_DATA);
    if len < OFFSET_DATA then PAGE_SIZE + 1 else offset + len
  }

  /** A record wrapped and inserted at `offset` spans exactly its wrapped bytes. */
  lemma WrappedItemEnd(s: seq<Byte>, offset: nat, raw: seq<Byte>)
    requires offset + OFFSET_DATA + |raw| <= |s|
    requires |raw| < TWO_15 - OFFSET_DATA
    requires s[offset..offset + OFFSET_DATA + |raw|] == WrapDataItemRaw(raw)
    ensures ItemEnd(s, offset) == offset + OFFSET_DATA + |raw|
  {
    WrapDataItemFields(raw);
    var w := s[offset..offset + OFFSET_DATA + |raw|];
    assert w[1] == s[offset + 1] && w[2] == s[offset + 2];
    assert s[offset + OFFSET_SIZE..offset + OFFSET_DATA] == [w[1], w[2]];
    assert WrapDataItemRaw(raw)[OFFSET_SIZE..OFFSET_DATA] == [w[1], w[2]];
  }
}
