/** A cached page: its number, its byte buffer and whether it must be written back (`PageImpl`). */
module Pages {
  import opened Bytes

  /** `PageCache.PAGE_SIZE`: 1 << 13. */
  const PAGE_SIZE: int := 8192

  class Page {
    const pageNumber: int
    const data: array<Byte>
    var dirty: bool

    constructor (pageNumber: int, data: array<Byte>)
      ensures this.pageNumber == pageNumber && this.data == data && !dirty
    {
      this.pageNumber := pageNumber;
      this.data := data;
      dirty := false;
    }
  }
}

/**
 * Ordinary data pages (`CommonPage`): bytes 0..1 hold the free-space offset,
 * a signed big-endian short; records are packed from byte 2 up to it.
 */
module CommonPage {
  import opened Bytes
  import opened Pages

  const OFFSET_FREE: int := 0
  const OFFSET_DATA: int := 2
  /** The most a single page can hold. */
  const MAX_FREE_SPACE: int := PAGE_SIZE - OFFSET_DATA

  /** `getFreeSpaceOffset` on raw bytes. */
  function FreeOffset(s: seq<Byte>): I16
    requires |s| >= OFFSET_DATA
  {
    ParseShort(s[OFFSET_FREE..OFFSET_DATA])
  }

  /** `setFreeSpaceOffset` on raw bytes. */
  function SetFreeOffset(s: seq<Byte>, v: I16): (r: seq<Byte>)
    requires |s| >= OFFSET_DATA
    ensures |r| == |s| && FreeOffset(r) == v && r[OFFSET_DATA..] == s[OFFSET_DATA..]
  {
    ShortRoundTrip(v);
    var r := ShortToBytes(v) + s[OFFSET_DATA..];
    assert r[OFFSET_FREE..OFFSET_DATA] == ShortToBytes(v);
    r
  }

  /** `System.arraycopy(raw, 0, s, off, raw.length)` on a copy of the bytes. */
  function Overwrite(s: seq<Byte>, off: nat, raw: seq<Byte>): (r: seq<Byte>)
    requires off + |raw| <= |s|
    ensures |r| == |s| && r[off..off + |raw|] == raw
    ensures r[..off] == s[..off] && r[off + |raw|..] == s[off + |raw|..]
  {
    s[..off] + raw + s[off + |raw|..]
  }

  /** `initRaw`: an empty page, free space starting right after the header. */
  function InitRaw(): (r: seq<Byte>)
    ensures |r| == PAGE_SIZE
    ensures FreeOffset(r) == OFFSET_DATA
    ensures forall i :: OFFSET_DATA <= i < PAGE_SIZE ==> r[i] == 0
  {
    SetFreeOffset(seq(PAGE_SIZE, _ => 0), OFFSET_DATA as I16)
  }

  /** `getPageFreeSpace` on raw bytes. */
  function PageFreeSpace(s: seq<Byte>): int
    requires |s| >= OFFSET_DATA
  {
    PAGE_SIZE - FreeOffset(s)
  }

  /** An empty page can take `MAX_FREE_SPACE` bytes. */
  lemma InitRawFreeSpace()
    ensures PageFreeSpace(InitRaw()) == MAX_FREE_SPACE
  {
  }

  /** The bytes of a page after `insert(raw)`. */
  function InsertImage(s: seq<Byte>, raw: seq<Byte>): (r: seq<Byte>)
    requires |s| == PAGE_SIZE
    requires 0 <= FreeOffset(s) && FreeOffset(s) + |raw| <= PAGE_SIZE
    ensures |r| == PAGE_SIZE
  {
    var fso := FreeOffset(s);
    var copied := Overwrite(s, fso, raw);
    SetFreeOffset(copied, Wrap16(fso + |raw|))
  }

  /**
   * On a page whose free offset is past the header, `insert` places `raw`
   * at the old free offset, moves the free offset past it, lowers the free
   * space by exactly its length and changes no other byte.
   */
  lemma InsertImageProperties(s: seq<Byte>, raw: seq<Byte>)
    requires |s| == PAGE_SIZE
    requires OFFSET_DATA <= FreeOffset(s) && FreeOffset(s) + |raw| <= PAGE_SIZE
    ensures var r := InsertImage(s, raw); var fso := FreeOffset(s);
      && |r| == PAGE_SIZE
      && FreeOffset(r) == fso + |raw|
      && PageFreeSpace(r) == PageFreeSpace(s) - |raw|
      && r[fso..fso + |raw|] == raw
      && r[OFFSET_DATA..fso] == s[OFFSET_DATA..fso]
      && r[fso + |raw|..] == s[fso + |raw|..]
  {
    var fso := FreeOffset(s);
    var copied := Overwrite(s, fso, raw);
    var r := InsertImage(s, raw);
    assert r[OFFSET_DATA..] == copied[OFFSET_DATA..];
    assert r[fso..fso + |raw|] == copied[OFFSET_DATA..][fso - OFFSET_DATA..fso - OFFSET_DATA + |raw|];
    assert r[OFFSET_DATA..fso] == copied[OFFSET_DATA..][..fso - OFFSET_DATA];
    assert copied[OFFSET_DATA..fso] == copied[..fso][OFFSET_DATA..];
    assert s[OFFSET_DATA..fso] == s[..fso][OFFSET_DATA..];
    assert r[fso + |raw|..] == copied[OFFSET_DATA..][fso + |raw| - OFFSET_DATA..];
  }

  /** The bytes of a page after `recoverInsert(raw, offset)`. */
  function RecoverInsertImage(s: seq<Byte>, raw: seq<Byte>, offset: I16): seq<Byte>
    requires |s| == PAGE_SIZE
    requires 0 <= offset && offset + |raw| <= PAGE_SIZE
  {
    var copied := Overwrite(s, offset, raw);
    var cur := FreeOffset(copied);
    var end := Wrap16(|raw| + offset);
    if cur < end then SetFreeOffset(copied, end) else copied
  }

  /**
   * Redoing an insert past the header writes the record back and leaves the
   * free offset at the larger of where it was and the record's end.
   */
  lemma RecoverInsertProperties(s: seq<Byte>, raw: seq<Byte>, offset: I16)
    requires |s| == PAGE_SIZE
    requires OFFSET_DATA <= offset && offset + |raw| <= PAGE_SIZE
    ensures var r := RecoverInsertImage(s, raw, offset);
      && |r| == PAGE_SIZE
      && r[offset..offset + |raw|] == raw
      && FreeOffset(r) == Max(FreeOffset(s), offset + |raw|)
      && r[OFFSET_DATA..offset] == s[OFFSET_DATA..offset]
      && r[offset + |raw|..] == s[offset + |raw|..]
  {
    var copied := Overwrite(s, offset, raw);
    assert copied[OFFSET_FREE..OFFSET_DATA] == s[OFFSET_FREE..OFFSET_DATA];
    var r := RecoverInsertImage(s, raw, offset);
    assert r[OFFSET_DATA..] == copied[OFFSET_DATA..];
    assert r[offset..offset + |raw|] == copied[OFFSET_DATA..][offset - OFFSET_DATA..offset - OFFSET_DATA + |raw|];
    assert r[OFFSET_DATA..offset] == copied[OFFSET_DATA..][..offset - OFFSET_DATA];
    assert copied[OFFSET_DATA..offset] == copied[..offset][OFFSET_DATA..];
    assert s[OFFSET_DATA..offset] == s[..offset][OFFSET_DATA..];
    assert r[offset + |raw|..] == copied[OFFSET_DATA..][offset + |raw| - OFFSET_DATA..];
  }

  /** Redoing an insert twice leaves the page as redoing it once. */
  lemma RecoverInsertIdempotent(s: seq<Byte>, raw: seq<Byte>, offset: I16)
    requires |s| == PAGE_SIZE
    requires OFFSET_DATA <= offset && offset + |raw| <= PAGE_SIZE
    ensures RecoverInsertImage(RecoverInsertImage(s, raw, offset), raw, offset) == RecoverInsertImage(s, raw, offset)
  {
    var r := RecoverInsertImage(s, raw, offset);
    RecoverInsertProperties(s, raw, offset);
    RecoverInsertProperties(r, raw, offset);
    var r2 := RecoverInsertImage(r, raw, offset);
    assert r2[..OFFSET_DATA] == r[..OFFSET_DATA] by {
      ShortBytesRoundTrip(r[..OFFSET_DATA]);
      ShortBytesRoundTrip(r2[..OFFSET_DATA]);
      assert r[OFFSET_FREE..OFFSET_DATA] == r[..OFFSET_DATA];
      assert r2[OFFSET_FREE..OFFSET_DATA] == r2[..OFFSET_DATA];
    }
    assert r2 == r2[..OFFSET_DATA] + r2[OFFSET_DATA..offset] + r2[offset..offset + |raw|] + r2[offset + |raw|..];
    assert r == r[..OFFSET_DATA] + r[OFFSET_DATA..offset] + r[offset..offset + |raw|] + r[offset + |raw|..];
  }

  /** `recoverUpdate` past the header rewrites the record and leaves the free offset alone. */
  lemma RecoverUpdateKeepsHeader(s: seq<Byte>, raw: seq<Byte>, offset: I16)
    requires |s| == PAGE_SIZE
    requires OFFSET_DATA <= offset && offset + |raw| <= PAGE_SIZE
    ensures FreeOffset(Overwrite(s, offset, raw)) == FreeOffset(s)
  {
    var r := Overwrite(s, offset, raw);
    assert r[OFFSET_FREE..OFFSET_DATA] == r[..offset][OFFSET_FREE..OFFSET_DATA];
    assert s[OFFSET_FREE..OFFSET_DATA] == s[..offset][OFFSET_FREE..OFFSET_DATA];
  }

  /** The page's free offset, read from its buffer. */
  function GetFreeSpaceOffset(page: Page): I16
    reads page.data
    requires page.data.Length == PAGE_SIZE
  {
    FreeOffset(page.data[..])
  }

  /** `getPageFreeSpace` */
  function GetPageFreeSpace(page: Page): int
    reads page.data
    requires page.data.Length == PAGE_SIZE
  {
    PageFreeSpace(page.data[..])
  }

  /** Copies `raw` into the page buffer at `off`. */
  method CopyInto(page: Page, raw: seq<Byte>, off: int)
    requires 0 <= off && off + |raw| <= page.data.Length
    modifies page.data
    ensures page.data[..] == Overwrite(old(page.data[..]), off, raw)
  {
    forall i | 0 <= i < |raw| {
      page.data[off + i] := raw[i];
    }
    assert page.data[..] == old(page.data[..])[..off] + raw + old(page.data[..])[off + |raw|..];
  }

  /** Writes the free-offset header. */
  method WriteFreeOffset(page: Page, v: I16)
    requires page.data.Length == PAGE_SIZE
    modifies page.data
    ensures page.data[..] == SetFreeOffset(old(page.data[..]), v)
  {
    var b := ShortToBytes(v);
    page.data[0] := b[0];
    page.data[1] := b[1];
    assert page.data[..] == b + old(page.data[..])[OFFSET_DATA..];
  }

  /**
   * `insert`: appends `raw` at the free offset, marks the page dirty and
   * returns where the record starts. The caller must have checked that it fits.
   */
  method Insert(page: Page, raw: seq<Byte>) returns (offset: I16)
    requires page.data.Length == PAGE_SIZE
    requires 0 <= GetFreeSpaceOffset(page) && GetFreeSpaceOffset(page) + |raw| <= PAGE_SIZE
    modifies page, page.data
    ensures offset == old(GetFreeSpaceOffset(page))
    ensures page.data[..] == InsertImage(old(page.data[..]), raw)
    ensures page.dirty
  {
    offset := GetFreeSpaceOffset(page);
    CopyInto(page, raw, offset);
    WriteFreeOffset(page, Wrap16(offset + |raw|));
    page.dirty := true;
  }

  /** `recoverInsert`: redoes an insert at a logged offset. */
  method RecoverInsert(page: Page, raw: seq<Byte>, offset: I16)
    requires page.data.Length == PAGE_SIZE
    requires 0 <= offset && offset + |raw| <= PAGE_SIZE
    modifies page, page.data
    ensures page.data[..] == RecoverInsertImage(old(page.data[..]), raw, offset)
    ensures page.dirty
  {
    CopyInto(page, raw, offset);
    var cur := GetFreeSpaceOffset(page);
    page.dirty := true;
    var end := Wrap16(|raw| + offset);
    if cur < end {
      WriteFreeOffset(page, end);
    }
  }

  /** `recoverUpdate`: rewrites a record at a logged offset. */
  method RecoverUpdate(page: Page, raw: seq<Byte>, offset: I16)
    requires page.data.Length == PAGE_SIZE
    requires 0 <= offset && offset + |raw| <= PAGE_SIZE
    modifies page, page.data
    ensures page.data[..] == Overwrite(old(page.data[..]), offset, raw)
    ensures page.dirty
  {
    CopyInto(page, raw, offset);
    page.dirty := true;
  }
}

/**
 * Page 1 (`FirstPage`) carries the clean-shutdown stamp: 8 random bytes at
 * 100 are written on open and copied to 108 on a clean close, so a crash
 * leaves the two copies different.
 */
module FirstPage {
  import opened Bytes
  import opened Pages

  const VALID_CHECK_OFFSET: int := 100
  const VALID_CHECK_LEN: int := 8

  /** `validCheckFirstPage` on raw bytes. */
  predicate ValidCheck(s: seq<Byte>)
    requires |s| == PAGE_SIZE
  {
    s[VALID_CHECK_OFFSET..VALID_CHECK_OFFSET + VALID_CHECK_LEN]
      == s[VALID_CHECK_OFFSET + VALID_CHECK_LEN..VALID_CHECK_OFFSET + 2 * VALID_CHECK_LEN]
  }

  /** The open stamp written over bytes 100..107. */
  function OpenImage(s: seq<Byte>, stamp: seq<Byte>): (r: seq<Byte>)
    requires |s| == PAGE_SIZE && |stamp| == VALID_CHECK_LEN
    ensures |r| == PAGE_SIZE
  {
    s[..VALID_CHECK_OFFSET] + stamp + s[VALID_CHECK_OFFSET + VALID_CHECK_LEN..]
  }

  /** Bytes 100..107 copied onto 108..115. */
  function CloseImage(s: seq<Byte>): (r: seq<Byte>)
    requires |s| == PAGE_SIZE
    ensures |r| == PAGE_SIZE
  {
    s[..VALID_CHECK_OFFSET + VALID_CHECK_LEN]
      + s[VALID_CHECK_OFFSET..VALID_CHECK_OFFSET + VALID_CHECK_LEN]
      + s[VALID_CHECK_OFFSET + 2 * VALID_CHECK_LEN..]
  }

  /** `initRaw`: a zero page carrying only the open stamp. */
  function InitRaw(stamp: seq<Byte>): (r: seq<Byte>)
    requires |stamp| == VALID_CHECK_LEN
    ensures |r| == PAGE_SIZE
    ensures r[VALID_CHECK_OFFSET..VALID_CHECK_OFFSET + VALID_CHECK_LEN] == stamp
    ensures forall i :: 0 <= i < PAGE_SIZE && !(VALID_CHECK_OFFSET <= i < VALID_CHECK_OFFSET + VALID_CHECK_LEN) ==> r[i] == 0
  {
    OpenImage(seq(PAGE_SIZE, _ => 0), stamp)
  }

  /**
   * Closing makes the check pass, closing again changes nothing, and only
   * bytes 108..115 differ from before.
   */
  lemma CloseProperties(s: seq<Byte>)
    requires |s| == PAGE_SIZE
    ensures ValidCheck(CloseImage(s))
    ensures CloseImage(CloseImage(s)) == CloseImage(s)
    ensures forall i :: 0 <= i < PAGE_SIZE && !(108 <= i < 116) ==> CloseImage(s)[i] == s[i]
  {
    var c := CloseImage(s);
    assert c[100..108] == s[100..108];
    assert c[108..116] == s[100..108];
    var cc := CloseImage(c);
    assert |cc| == |c|;
    forall i | 0 <= i < PAGE_SIZE ensures cc[i] == c[i] {
      if 108 <= i < 116 {
        assert cc[i] == c[100..108][i - 108];
      }
    }
  }

  /**
   * A fresh open stamp passes the check only if it happens to equal the
   * previous close copy: a new run starts "unclean" until it closes.
   */
  lemma OpenThenCheck(s: seq<Byte>, stamp: seq<Byte>)
    requires |s| == PAGE_SIZE && |stamp| == VALID_CHECK_LEN
    ensures ValidCheck(OpenImage(s, stamp)) <==> stamp == s[108..116]
    ensures forall i :: 0 <= i < PAGE_SIZE && !(100 <= i < 108) ==> OpenImage(s, stamp)[i] == s[i]
  {
    var o := OpenImage(s, stamp);
    assert o[100..108] == stamp;
    assert o[108..116] == s[108..116];
  }

  /** `validCheckFirstPage` */
  predicate ValidCheckFirstPage(page: Page)
    reads page.data
    requires page.data.Length == PAGE_SIZE
  {
    ValidCheck(page.data[..])
  }

  /** `setValidCheckOpen`, with the random stamp as a parameter. */
  method SetValidCheckOpen(page: Page, stamp: seq<Byte>)
    requires page.data.Length == PAGE_SIZE && |stamp| == VALID_CHECK_LEN
    modifies page, page.data
    ensures page.dirty
    ensures page.data[..] == OpenImage(old(page.data[..]), stamp)
  {
    page.dirty := true;
    forall i | 0 <= i < VALID_CHECK_LEN {
      page.data[VALID_CHECK_OFFSET + i] := stamp[i];
    }
    assert page.data[..] == old(page.data[..])[..100] + stamp + old(page.data[..])[108..];
  }

  /** `setValidCheckClose` */
  method SetValidCheckClose(page: Page)
    requires page.data.Length == PAGE_SIZE
    modifies page, page.data
    ensures page.dirty
    ensures page.data[..] == CloseImage(old(page.data[..]))
  {
    page.dirty := true;
    forall i | 0 <= i < VALID_CHECK_LEN {
      page.data[VALID_CHECK_OFFSET + VALID_CHECK_LEN + i] := page.data[VALID_CHECK_OFFSET + i];
    }
    assert page.data[..] == old(page.data[..])[..108] + old(page.data[..])[100..108] + old(page.data[..])[116..];
  }
}
