/**
 * The data manager (`DataManagerImpl`): a record is wrapped as a data item,
 * placed in a page found through the free-space index, and logged before the
 * page changes; its address (uid) packs the page number and the offset.
 */
module DataManager {
  import opened Bytes
  import opened Outcomes
  import opened Pages
  import CommonPage
  import FirstPage
  import opened PageIndex
  import Logger
  import opened LogRecords
  import opened PageCache
  import opened DataItem
  import TransactionManager
  import Recover

  /** How many times `insert` looks for a page before giving up. */
  const INSERT_ATTEMPTS: int := 5

  /** The page cached under `no` and its buffer, if it is cached. */
  function CachedFrame(cache: map<int, Page>, no: int): (r: set<object>)
    ensures no in cache ==> cache[no] in r && cache[no].data in r
  {
    if no in cache then {cache[no], cache[no].data} else {}
  }

  /** The bytes of page `no` as a reader sees them: the cached copy if there is one, else the file's. */
  ghost function PageView(pc: PageCache, no: int): (r: seq<Byte>)
    reads pc, pc.pages, set p | p in pc.pages.cache.Values :: p.data
    requires no >= 1 && pc.Valid()
    ensures |r| == PAGE_SIZE
  {
    if no in pc.pages.cache then pc.pages.cache[no].data[..] else ReadPage(pc.file, no)
  }

  /**
   * The page-selection loop of `insert`: up to `attempts` times, take a
   * page with room for `size` bytes, or else allocate page `next` and file
   * it as empty. Returns the record taken and the buckets left.
   */
  function SelectLoop(lists: seq<seq<PageInfo>>, size: int, attempts: nat, next: int): (Option<PageInfo>, seq<seq<PageInfo>>)
    requires 0 <= size && |lists| == INTERVALS_NO + 1
    decreases attempts
  {
    if attempts == 0 then (None, lists)
    else
      var taken := SelectFittingImage(lists, size);
      if taken.0.Some? then taken
      else SelectLoop(AddImage(lists, next, CommonPage.MAX_FREE_SPACE), size, attempts - 1, next + 1)
  }

  /**
   * The selection loop never takes a page without room, keeps the buckets
   * filed, and gives up only after filing one empty page per attempt.
   */
  lemma {:induction false} SelectLoopProperties(lists: seq<seq<PageInfo>>, size: int, attempts: nat, next: int)
    requires Filed(lists) && 0 <= size
    ensures Filed(SelectLoop(lists, size, attempts, next).1)
    ensures SelectLoop(lists, size, attempts, next).0.Some? ==> SelectLoop(lists, size, attempts, next).0.value.freeSpace >= size
    ensures SelectLoop(lists, size, attempts, next).0.None? ==> Total(SelectLoop(lists, size, attempts, next).1) == Total(lists) + attempts
    decreases attempts
  {
    if attempts > 0 {
      SelectFittingFits(lists, size);
      if SelectFittingImage(lists, size).0.None? {
        AddProperties(lists, next, CommonPage.MAX_FREE_SPACE);
        SelectLoopProperties(AddImage(lists, next, CommonPage.MAX_FREE_SPACE), size, attempts - 1, next + 1);
      }
    }
  }

  /** An empty page is filed in the top bucket. */
  lemma EmptyPageBucket()
    ensures CommonPage.MAX_FREE_SPACE == 8190 && Bucket(CommonPage.MAX_FREE_SPACE) == INTERVALS_NO
  {
    assert 8190 / THRESHOLD == 40;
  }

  /** One attempt of the loop that finds nothing files a new page and leaves one attempt fewer. */
  lemma SelectLoopStep(lists: seq<seq<PageInfo>>, size: int, attempts: nat, next: int)
    requires 0 <= size && |lists| == INTERVALS_NO + 1 && attempts > 0
    ensures SelectFittingImage(lists, size).0.Some? ==> SelectLoop(lists, size, attempts, next) == SelectFittingImage(lists, size)
    ensures SelectFittingImage(lists, size).0.None? ==>
      SelectLoop(lists, size, attempts, next) == SelectLoop(AddImage(lists, next, CommonPage.MAX_FREE_SPACE), size, attempts - 1, next + 1)
  {
  }

  /** The loop's remaining work after an attempt that found nothing and filed page `next`. */
  lemma SelectLoopAdvance(goal: (Option<PageInfo>, seq<seq<PageInfo>>), before: seq<seq<PageInfo>>, attempts: nat, next: int,
                          after: seq<seq<PageInfo>>, attemptsAfter: nat, nextAfter: int, size: int)
    requires 0 <= size && |before| == INTERVALS_NO + 1 && attempts > 0
    requires goal == SelectLoop(before, size, attempts, next)
    requires SelectFittingImage(before, size).0.None?
    requires after == AddImage(before, next, CommonPage.MAX_FREE_SPACE)
    requires attemptsAfter == attempts - 1 && nextAfter == next + 1
    ensures goal == SelectLoop(after, size, attemptsAfter, nextAfter)
  {
    SelectLoopStep(before, size, attempts, next);
  }

  /** An attempt that finds a page ends the loop with what it found. */
  lemma SelectLoopTakes(goal: (Option<PageInfo>, seq<seq<PageInfo>>), before: seq<seq<PageInfo>>, attempts: nat, next: int, size: int)
    requires 0 <= size && |before| == INTERVALS_NO + 1 && attempts > 0
    requires goal == SelectLoop(before, size, attempts, next)
    requires SelectFittingImage(before, size).0.Some?
    ensures goal == SelectFittingImage(before, size)
  {
    SelectLoopStep(before, size, attempts, next);
  }

  /** A record that fits an empty page is always placed by the second attempt at the latest. */
  lemma SelectLoopServes(lists: seq<seq<PageInfo>>, size: int, attempts: nat, next: int)
    requires Filed(lists) && 0 <= size <= CommonPage.MAX_FREE_SPACE && attempts >= 2
    ensures SelectLoop(lists, size, attempts, next).0.Some?
  {
    if SelectFittingImage(lists, size).0.None? {
      var added: seq<seq<PageInfo>> := AddImage(lists, next, CommonPage.MAX_FREE_SPACE);
      AddProperties(lists, next, CommonPage.MAX_FREE_SPACE);
      var k := |lists[INTERVALS_NO]|;
      EmptyPageBucket();
      assert added[INTERVALS_NO][k].freeSpace == CommonPage.MAX_FREE_SPACE;
      SelectFittingFindsTop(added, size, k);
    }
  }

  /** Every indexed page number lies between 1 and `last`. */
  ghost predicate PagesWithin(lists: seq<seq<PageInfo>>, last: int)
  {
    forall b, k :: 0 <= b < |lists| && 0 <= k < |lists[b]| ==> 1 <= lists[b][k].pageNo <= last
  }

  /** Filing a page that exists keeps every indexed page number in the file. */
  lemma AddWithin(lists: seq<seq<PageInfo>>, pageNo: int, freeSpace: int, last: int)
    requires PagesWithin(lists, last) && 0 <= Bucket(freeSpace) < |lists| && 1 <= pageNo <= last
    ensures PagesWithin(AddImage(lists, pageNo, freeSpace), last)
  {
    var after: seq<seq<PageInfo>> := AddImage(lists, pageNo, freeSpace);
    forall b, k | 0 <= b < |after| && 0 <= k < |after[b]|
      ensures 1 <= after[b][k].pageNo <= last
    {
      if b == Bucket(freeSpace) && k == |lists[b]| {
        assert after[b][k] == PageInfo(pageNo, freeSpace);
      } else {
        assert after[b][k] == lists[b][k];
      }
    }
  }

  /** Selection only takes records out, so what it returns and what it leaves name pages of the file. */
  lemma SelectFittingWithin(lists: seq<seq<PageInfo>>, freeSpace: int, last: int)
    requires |lists| == INTERVALS_NO + 1 && 0 <= freeSpace && PagesWithin(lists, last)
    ensures PagesWithin(SelectFittingImage(lists, freeSpace).1, last)
    ensures SelectFittingImage(lists, freeSpace).0.Some? ==>
      1 <= SelectFittingImage(lists, freeSpace).0.value.pageNo <= last
  {
    if Bucket(freeSpace) < INTERVALS_NO {
      match FirstNonEmpty(lists, Bucket(freeSpace) + 1)
      case None =>
      case Some(n) =>
        var after: seq<seq<PageInfo>> := lists[n := lists[n][1..]];
        assert lists[n][0].pageNo <= last;
        forall b, k | 0 <= b < |after| && 0 <= k < |after[b]|
          ensures 1 <= after[b][k].pageNo <= last
        {
          if b == n {
            assert after[b][k] == lists[n][k + 1];
          }
        }
    } else {
      var top := lists[INTERVALS_NO];
      match FirstFitting(top, freeSpace, 0)
      case None =>
      case Some(j) =>
        var after: seq<seq<PageInfo>> := lists[INTERVALS_NO := top[..j] + top[j + 1..]];
        assert top[j].pageNo <= last;
        forall b, k | 0 <= b < |after| && 0 <= k < |after[b]|
          ensures 1 <= after[b][k].pageNo <= last
        {
          if b == INTERVALS_NO {
            assert after[b][k] == if k < j then top[k] else top[k + 1];
          }
        }
    }
  }

  /** `file` after empty common pages `lo + 1` to `hi` have been written, in that order. */
  function EmptyPagesAppended(file: seq<Byte>, lo: int, hi: int): seq<Byte>
    requires 0 <= lo <= hi
    decreases hi - lo
  {
    if hi == lo then file
    else WriteAt(EmptyPagesAppended(file, lo, hi - 1), PageOffset(hi), CommonPage.InitRaw())
  }

  /** Writing one more empty page after the appended ones. */
  lemma AppendOne(file: seq<Byte>, lo: int, hi: int, mid: seq<Byte>, no: int, after: seq<Byte>)
    requires 0 <= lo <= hi && mid == EmptyPagesAppended(file, lo, hi)
    requires no == hi + 1 && after == WriteAt(mid, PageOffset(no), CommonPage.InitRaw())
    ensures after == EmptyPagesAppended(file, lo, no)
  {
  }

  /** The last appended page reads as an empty common page; every other page reads as one page fewer. */
  lemma EmptyPagesReadLast(file: seq<Byte>, lo: int, hi: int, q: int)
    requires 0 <= lo < hi && q >= 1
    ensures ReadPage(EmptyPagesAppended(file, lo, hi), q) ==
      (if q == hi then CommonPage.InitRaw() else ReadPage(EmptyPagesAppended(file, lo, hi - 1), q))
  {
    WritePageReads(EmptyPagesAppended(file, lo, hi - 1), hi, CommonPage.InitRaw(), q);
  }

  /** The appended pages read as empty common pages; every other page reads as before. */
  lemma {:induction false} EmptyPagesRead(file: seq<Byte>, lo: int, hi: int, q: int)
    requires 0 <= lo <= hi && q >= 1
    ensures ReadPage(EmptyPagesAppended(file, lo, hi), q) ==
      (if lo < q && q <= hi then CommonPage.InitRaw() else ReadPage(file, q))
    decreases hi - lo
  {
    if hi > lo {
      EmptyPagesReadLast(file, lo, hi, q);
      if q != hi {
        EmptyPagesRead(file, lo, hi - 1, q);
      }
    }
  }

  /**
   * `initPageIndex` from page `lo` on: each page up to `hi` is filed, in
   * order, under its free space; nothing when some page's free space falls
   * outside every bucket (the engine's array access fails there).
   */
  function IndexImage(lists: seq<seq<PageInfo>>, file: seq<Byte>, lo: int, hi: int)
    : (r: Option<seq<seq<PageInfo>>>)
    requires |lists| == INTERVALS_NO + 1 && lo >= 1
    ensures r.Some? ==> |r.value| == |lists|
    decreases hi - lo + 1
  {
    if lo > hi then Some(lists)
    else
      var free := CommonPage.PageFreeSpace(ReadPage(file, lo));
      if 0 <= Bucket(free) <= INTERVALS_NO then IndexImage(AddImage(lists, lo, free), file, lo + 1, hi)
      else None
  }

  /**
   * After indexing, every page from `lo` to `hi` is filed under its free
   * space, behind whatever its bucket held before.
   */
  lemma {:induction false} IndexImageFiles(lists: seq<seq<PageInfo>>, file: seq<Byte>,
                                          lo: int, hi: int, p: int)
    requires |lists| == INTERVALS_NO + 1 && lo >= 1
    requires IndexImage(lists, file, lo, hi).Some? && lo <= p <= hi
    ensures var free := CommonPage.PageFreeSpace(ReadPage(file, p));
      && 0 <= Bucket(free) <= INTERVALS_NO
      && PageInfo(p, free) in IndexImage(lists, file, lo, hi).value[Bucket(free)]
    decreases hi - lo + 1
  {
    var free := CommonPage.PageFreeSpace(ReadPage(file, lo));
    var next := AddImage(lists, lo, free);
    if p == lo {
      IndexImageKeeps(next, file, lo + 1, hi, Bucket(free), |lists[Bucket(free)]|);
      assert next[Bucket(free)][|lists[Bucket(free)]|] == PageInfo(lo, free);
    } else {
      IndexImageFiles(next, file, lo + 1, hi, p);
    }
  }

  /** Indexing only appends: a record already filed stays where it is. */
  lemma {:induction false} IndexImageKeeps(lists: seq<seq<PageInfo>>, file: seq<Byte>,
                                          lo: int, hi: int, b: int, k: int)
    requires |lists| == INTERVALS_NO + 1 && lo >= 1
    requires IndexImage(lists, file, lo, hi).Some? && 0 <= b < |lists| && 0 <= k < |lists[b]|
    ensures var res := IndexImage(lists, file, lo, hi).value;
      |res| == |lists| && k < |res[b]| && res[b][k] == lists[b][k]
    decreases hi - lo + 1
  {
    if lo <= hi {
      var free := CommonPage.PageFreeSpace(ReadPage(file, lo));
      IndexImageKeeps(AddImage(lists, lo, free), file, lo + 1, hi, b, k);
    }
  }

  /** The record fits between the page's free offset and the page's end. */
  predicate HasRoom(s: seq<Byte>, raw: seq<Byte>)
    requires |s| >= CommonPage.OFFSET_DATA
  {
    0 <= CommonPage.FreeOffset(s) && CommonPage.FreeOffset(s) + |raw| <= PAGE_SIZE
  }

  /** `getPage(no)` fails: the page is not cached and the cache is at capacity. */
  predicate Unpinnable(cache: map<int, Page>, count: int, capacity: int, no: int)
  {
    no !in cache && count == capacity
  }

  /**
   * The index after the `finally` of a failed copy: the page is filed under
   * its free space when that has a bucket; otherwise the filing itself fails
   * and the index is as it was.
   */
  function RefileImage(lists: seq<seq<PageInfo>>, pageNo: int, freeSpace: int): seq<seq<PageInfo>>
  {
    if 0 <= Bucket(freeSpace) < |lists| then AddImage(lists, pageNo, freeSpace) else lists
  }

  /**
   * What close leaves on disk: page one reads its close image whether its
   * release wrote it or the cache's write-back did, and a page write-back
   * did not touch reads as before.
   */
  lemma ClosedFileReads(file0: seq<Byte>, file1: seq<Byte>, held: seq<Held>, data: seq<Byte>, released: bool,
                         cached: set<int>, at: int)
    requires |data| == PAGE_SIZE
    requires forall i :: 0 <= i < |held| ==> held[i].no >= 1 && |held[i].data| == PAGE_SIZE
    requires forall i, j :: 0 <= i < j < |held| ==> held[i].no != held[j].no
    requires forall i :: 0 <= i < |held| ==> held[i].no in cached
    requires released ==>
      && file1 == WriteAt(file0, PageOffset(1), data)
      && forall i :: 0 <= i < |held| ==> held[i].no != 1
    requires !released ==> file1 == file0 && 0 <= at < |held| && held[at] == Held(1, true, data)
    ensures ReadPage(WriteBackImage(file1, held), 1) == data
    ensures forall q :: q >= 2 && q !in cached ==> ReadPage(WriteBackImage(file1, held), q) == ReadPage(file0, q)
  {
    WriteBackReads(file1, held, 1);
    if released {
      WritePageReads(file0, 1, data, 1);
    }
    forall q | q >= 2 && q !in cached
      ensures ReadPage(WriteBackImage(file1, held), q) == ReadPage(file0, q)
    {
      WriteBackReads(file1, held, q);
      if released {
        WritePageReads(file0, 1, data, q);
      }
    }
  }

  class DataManager {
    /** The database file's page cache. */
    const pc: PageCache
    /** The log file. */
    const lg: Logger.LogFile
    /** Free space per page, for `insert`. */
    const pIndex: PageIndex
    /** Page one, held from open to close. */
    var pageOne: Page?

    /** The cache, the index and the log are each in a usable state. */
    ghost predicate Valid()
      reads pc, pc.pages, pIndex, pIndex.lists, lg
    {
      && pc.Valid() && IndexValid()
      && lg.position >= 0
    }

    /** Page one, once held, is the file's first page. */
    ghost predicate PageOneValid()
      reads this
    {
      pageOne != null ==> pageOne.pageNumber == 1 && pageOne.data.Length == PAGE_SIZE
    }

    /** The index is filed and names only pages of the file. */
    ghost predicate IndexValid()
      reads pc`pageNumber, pIndex, pIndex.lists
    {
      && pIndex.Valid()
      && pc.pageNumber >= 0
      && PagesWithin(pIndex.lists[..], pc.pageNumber)
    }

    constructor (pc: PageCache, lg: Logger.LogFile)
      requires pc.Valid() && lg.position >= 0 && pc.pageNumber >= 0
      ensures Valid() && PageOneValid() && fresh(pIndex) && fresh(pIndex.lists)
      ensures this.pc == pc && this.lg == lg && pageOne == null
      ensures forall b :: 0 <= b < pIndex.lists.Length ==> pIndex.lists[b] == []
    {
      this.pc := pc;
      this.lg := lg;
      pIndex := new PageIndex();
      pageOne := null;
    }

    /**
     * `initPageOne`: a fresh first page, carrying only the open stamp, is
     * appended to the file and pinned as page one; the engine stops when it
     * cannot be pinned.
     */
    method InitPageOne(stamp: seq<Byte>) returns (r: Result<()>)
      requires Valid() && |stamp| == FirstPage.VALID_CHECK_LEN
      modifies this`pageOne, pc.pages, pc`file, pc`pageNumber
      ensures Valid()
      ensures old(pc.pageNumber) == 0 && old(PageOneValid()) ==> PageOneValid()
      ensures pc.pageNumber == old(pc.pageNumber) + 1
      ensures pc.file == WriteAt(old(pc.file), PageOffset(pc.pageNumber), FirstPage.InitRaw(stamp))
      ensures r == Err(Panic) <==> Unpinnable(old(pc.pages.cache), old(pc.pages.count), pc.pages.capacity, pc.pageNumber)
      ensures r.Err? ==> r.error == Panic
      ensures r.Ok? ==>
        && pageOne != null && pageOne.pageNumber == pc.pageNumber
        && pc.pages.cache == old(pc.pages.cache)[pc.pageNumber := pageOne]
      ensures r.Ok? && pc.pageNumber !in old(pc.pages.cache) ==> pageOne.data[..] == FirstPage.InitRaw(stamp)
    {
      var no := pc.NewPage(FirstPage.InitRaw(stamp));
      var got := pc.GetPage(no);
      if got.Err? {
        return Err(Panic);
      }
      WritePageReads(old(pc.file), no, FirstPage.InitRaw(stamp), no);
      pageOne := got.value;
      r := Ok(());
    }

    /**
     * `checkPageOneOnLoad`: pins page 1 as page one and tells whether its
     * open and close stamps agree, that is whether the last run closed
     * cleanly; the engine stops when it cannot be pinned.
     */
    method CheckPageOneOnLoad() returns (r: Result<bool>)
      requires Valid() && PageOneValid()
      modifies this`pageOne, pc.pages
      ensures Valid() && PageOneValid()
      ensures r == Err(Panic) <==> Unpinnable(old(pc.pages.cache), old(pc.pages.count), pc.pages.capacity, 1)
      ensures r.Err? ==> r.error == Panic
      ensures r.Ok? ==>
        && pageOne != null && pageOne.data[..] == old(PageView(pc, 1))
        && pc.pages.cache == old(pc.pages.cache)[1 := pageOne]
        && (r.value <==> FirstPage.ValidCheck(old(PageView(pc, 1))))
      ensures r.Ok? && 1 !in old(pc.pages.cache) ==> fresh(pageOne) && fresh(pageOne.data)
    {
      var got := pc.GetPage(1);
      if got.Err? {
        return Err(Panic);
      }
      pageOne := got.value;
      var ok := FirstPage.ValidCheckFirstPage(pageOne);
      r := Ok(ok);
    }

    /**
     * The end of `open`: a new open stamp goes on page one, which is then
     * written to the file.
     */
    method StampPageOne(stamp: seq<Byte>)
      requires pc.Valid() && PageOneValid() && pageOne != null && |stamp| == FirstPage.VALID_CHECK_LEN
      modifies pageOne, pageOne.data, pc`file
      ensures pc.Valid() && PageOneValid() && pageOne.dirty
      ensures pageOne.data[..] == FirstPage.OpenImage(old(pageOne.data[..]), stamp)
      ensures pc.file == WriteAt(old(pc.file), PageOffset(1), pageOne.data[..])
      ensures ReadPage(pc.file, 1) == pageOne.data[..]
    {
      FirstPage.SetValidCheckOpen(pageOne, stamp);
      pc.FlushPage(pageOne);
      WriteThenReadPage(old(pc.file), 1, pageOne.data[..]);
    }

    /**
     * `create`: the page cache over the file (its capacity is the memory
     * budget in pages, below `MEM_MIN_LIM` the engine stops), then a first
     * page carrying the open stamp appended and pinned as page one.
     */
    static method Create(contents: seq<Byte>, memory: I64, lg: Logger.LogFile, stamp: seq<Byte>)
      returns (r: Result<DataManager>)
      requires |contents| < TWO_31 && lg.position >= 0 && |stamp| == FirstPage.VALID_CHECK_LEN
      ensures r.Err? <==> JavaDiv(Wrap32(memory), PAGE_SIZE) < MEM_MIN_LIM
      ensures r.Err? ==> r.error == MemTooSmall
      ensures r.Ok? ==>
        var dm := r.value;
        && fresh(dm) && fresh(dm.pc) && dm.lg == lg && dm.Valid()
        && dm.pc.pageNumber == InitialPageNumber(|contents|) + 1
        && dm.pc.file == WriteAt(contents, PageOffset(dm.pc.pageNumber), FirstPage.InitRaw(stamp))
        && dm.pageOne != null && dm.pageOne.pageNumber == dm.pc.pageNumber
        && dm.pageOne.data[..] == FirstPage.InitRaw(stamp)
        && (|contents| < PAGE_SIZE ==> dm.PageOneValid())
    {
      var pc0 := PageCache.Open(contents, JavaDiv(Wrap32(memory), PAGE_SIZE));
      if pc0.Err? {
        return Err(pc0.error);
      }
      var dm := new DataManager(pc0.value, lg);
      var made := dm.InitPageOne(stamp);
      if made.Err? {
        assert false;
      }
      r := Ok(dm);
    }

    /**
     * The first steps of `open`: page one pinned and checked, and the file
     * recovered from the log when the check fails (the engine stops when
     * recovery does).
     */
    method LoadPageOne(tm: TransactionManager.XidFile, order: seq<I64>) returns (r: Result<()>, ghost recovered: bool)
      requires Valid() && PageOneValid() && pc.pages.cache == map[] && pc.pages.capacity >= MEM_MIN_LIM
      requires pIndex.lists[..] == EMPTY_LISTS
      modifies this`pageOne, pc.pages, pc`file, pc`pageNumber, lg`position
      ensures Valid() && PageOneValid()
      ensures recovered <==> !FirstPage.ValidCheck(ReadPage(old(pc.file), 1))
      ensures var image := Recover.RecoverImage(tm.file, lg.file, lg.fileSize, old(pc.file), order);
        && (r.Err? <==> recovered && image.Err?)
        && (r.Err? ==> r.error == Panic)
        && (r.Ok? && recovered ==> pc.file == image.value)
      ensures r.Ok? && recovered ==> pc.pageNumber == Recover.TruncateTarget(Recover.ParsedLog(lg.file, lg.fileSize).value)
      ensures !recovered ==> pc.file == old(pc.file) && pc.pageNumber == old(pc.pageNumber)
      ensures r.Ok? ==>
        && pageOne != null && fresh(pageOne) && fresh(pageOne.data)
        && pc.pages.cache == map[1 := pageOne]
        && pageOne.data[..] == ReadPage(old(pc.file), 1)
    {
      var check := CheckPageOneOnLoad();
      if check.Err? {
        assert false;
        return Err(Panic), false;
      }
      recovered := !check.value;
      r := Ok(());
      if !check.value {
        var ok := Recover.RecoverDb(tm, lg, pc, order);
        assert PagesWithin(pIndex.lists[..], pc.pageNumber);
        if !ok {
          r := Err(Panic);
        }
      }
    }

    /**
     * The last steps of `open`: the index filled from pages 2 onwards, then
     * page one stamped afresh and written out.
     */
    method IndexAndStamp(stamp: seq<Byte>) returns (r: Result<()>)
      requires Valid() && PageOneValid() && pageOne != null && |stamp| == FirstPage.VALID_CHECK_LEN
      requires pc.pages.cache == map[1 := pageOne] && pc.pages.capacity >= MEM_MIN_LIM
      modifies pc.pages, pc`file, pIndex.lists, pageOne, pageOne.data
      ensures Valid() && PageOneValid() && pc.pageNumber == old(pc.pageNumber)
      ensures var image := IndexImage(old(pIndex.lists[..]), old(pc.file), 2, old(pc.pageNumber));
        && (r.Ok? ==> image == Some(pIndex.lists[..]))
        && (r.Err? ==> r.error == OutOfBounds && image.None?)
      ensures r.Ok? ==>
        && pc.pages.cache == old(pc.pages.cache)
        && pageOne.data[..] == FirstPage.OpenImage(old(pageOne.data[..]), stamp)
        && pc.file == WriteAt(old(pc.file), PageOffset(1), pageOne.data[..])
        && ReadPage(pc.file, 1) == pageOne.data[..]
    {
      r := InitPageIndex();
      if r.Err? {
        return;
      }
      StampPageOne(stamp);
    }

    /**
     * `open`: the page cache over the existing file, page one loaded (with
     * recovery if needed), the index filled from pages 2 onwards, and page
     * one stamped afresh and written out. `db` is the file once recovery is
     * done.
     */
    static method Open(tm: TransactionManager.XidFile, contents: seq<Byte>, memory: I64, lg: Logger.LogFile,
                       stamp: seq<Byte>, order: seq<I64>)
      returns (r: Result<DataManager>, ghost recovered: bool, ghost db: seq<Byte>, ghost last: int)
      requires |contents| < TWO_31 && lg.position >= 0 && |stamp| == FirstPage.VALID_CHECK_LEN
      modifies lg`position
      ensures r == Err(MemTooSmall) <==> JavaDiv(Wrap32(memory), PAGE_SIZE) < MEM_MIN_LIM
      ensures r.Err? ==> r.error in {MemTooSmall, Panic, OutOfBounds}
      ensures r != Err(MemTooSmall) ==> (recovered <==> !FirstPage.ValidCheck(ReadPage(contents, 1)))
      ensures var image := Recover.RecoverImage(tm.file, lg.file, lg.fileSize, contents, order);
        && (r == Err(Panic) <==> recovered && image.Err?)
        && (!recovered ==> db == contents && last == InitialPageNumber(|contents|))
        && (recovered && image.Ok? ==>
              db == image.value && last == Recover.TruncateTarget(Recover.ParsedLog(lg.file, lg.fileSize).value))
      ensures r == Err(OutOfBounds) ==> IndexImage(EMPTY_LISTS, db, 2, last).None?
      ensures r.Ok? ==>
        var dm := r.value;
        && fresh(dm) && fresh(dm.pc) && dm.lg == lg && dm.Valid() && dm.PageOneValid()
        && dm.pc.pageNumber == last
        && dm.pageOne != null && dm.pc.pages.cache == map[1 := dm.pageOne]
        && dm.pageOne.data[..] == FirstPage.OpenImage(ReadPage(contents, 1), stamp)
        && dm.pc.file == WriteAt(db, PageOffset(1), dm.pageOne.data[..])
        && ReadPage(dm.pc.file, 1) == dm.pageOne.data[..]
        && IndexImage(EMPTY_LISTS, db, 2, last) == Some(dm.pIndex.lists[..])
    {
      db, last := contents, InitialPageNumber(|contents|);
      recovered := false;
      var pc0 := PageCache.Open(contents, JavaDiv(Wrap32(memory), PAGE_SIZE));
      if pc0.Err? {
        return Err(pc0.error), recovered, db, last;
      }
      var dm := new DataManager(pc0.value, lg);
      assert dm.pIndex.lists[..] == EMPTY_LISTS;
      var loaded;
      loaded, recovered := dm.LoadPageOne(tm, order);
      if loaded.Err? {
        return Err(Panic), recovered, db, last;
      }
      db, last := dm.pc.file, dm.pc.pageNumber;
      var filled := dm.IndexAndStamp(stamp);
      if filled.Err? {
        return Err(OutOfBounds), recovered, db, last;
      }
      r := Ok(dm);
    }

    /** The first steps of `closeDataManager`: page one gets its close stamp and is released. */
    method ReleasePageOne() returns (ghost released: bool)
      requires Valid() && PageOneValid() && pageOne != null
      requires 1 in pc.pages.cache && pc.pages.cache[1] == pageOne
      modifies pc.pages, pc`file, pageOne, pageOne.data
      ensures pc.Valid()
      ensures pageOne.data[..] == FirstPage.CloseImage(old(pageOne.data[..]))
      ensures FirstPage.ValidCheck(pageOne.data[..])
      ensures released ==>
        && pc.pages.cache == old(pc.pages.cache) - {1}
        && pc.file == WriteAt(old(pc.file), PageOffset(1), pageOne.data[..])
      ensures !released ==> pc.pages.cache == old(pc.pages.cache) && pc.file == old(pc.file) && pageOne.dirty
      ensures pc.pages.cache.Keys <= old(pc.pages.cache).Keys
    {
      FirstPage.SetValidCheckClose(pageOne);
      FirstPage.CloseProperties(old(pageOne.data[..]));
      released := pc.pages.references[1] == 1;
      pc.Release(pageOne);
    }

    /**
     * `closeDataManager`: page one gets its close stamp and is released,
     * then the page cache is closed, which writes every dirty page back.
     * Page one on disk then passes the valid check, so the next `open` does
     * not recover; pages that were not cached read as before.
     */
    method Close(order: seq<int>) returns (ghost held: seq<Held>)
      requires Valid() && PageOneValid() && pageOne != null
      requires 1 in pc.pages.cache && pc.pages.cache[1] == pageOne
      requires Distinct(order) && forall no :: no in pc.pages.cache ==> no in order
      modifies pc.pages, pc`file, pageOne.data, pc.pages.cache.Values
      ensures pc.pages.cache == map[]
      ensures ReadPage(pc.file, 1) == FirstPage.CloseImage(old(pageOne.data[..]))
      ensures FirstPage.ValidCheck(ReadPage(pc.file, 1))
      ensures forall no :: no >= 2 && no !in old(pc.pages.cache) ==> ReadPage(pc.file, no) == ReadPage(old(pc.file), no)
    {
      ghost var file0, keys0 := pc.file, pc.pages.cache.Keys;
      ghost var released := ReleasePageOne();
      ghost var file1, cache1, data := pc.file, pc.pages.cache, pageOne.data[..];
      assert !released ==> 1 in cache1 && cache1[1] == pageOne && pageOne.dirty;
      ghost var keys;
      held, keys := pc.Close(order);
      ghost var k := 0;
      if !released {
        k :| 0 <= k < |keys| && keys[k] == 1;
        assert held[k].dirty && held[k].data == data;
      }
      ClosedFileReads(file0, file1, held, data, released, keys0, k);
    }

    /**
     * `getForCache`: loads the page the uid names and parses the data item
     * at its offset; the engine stops on an address outside the page.
     */
    method GetForCache(uid: I64) returns (r: Result<DataItemImpl>)
      requires pc.Valid()
      modifies pc.pages
      ensures pc.Valid()
      ensures UidPage(uid) < 1 ==> r == Err(Panic)
      ensures r.Ok? ==> UidPage(uid) >= 1 && pc.pages.cache == old(pc.pages.cache)[UidPage(uid) := r.value.page]
      ensures r.Ok? && UidPage(uid) in old(pc.pages.cache) ==> r.value.page == old(pc.pages.cache)[UidPage(uid)]
      ensures r.Ok? && UidPage(uid) !in old(pc.pages.cache) ==> fresh(r.value.page)
      ensures r.Ok? ==>
        var item := r.value;
        && fresh(item) && item.Valid()
        && item.page.pageNumber == UidPage(uid)
        && item.start == UidOffset(uid)
        && item.end == ItemEnd(item.page.data[..], item.start)
      ensures r.Ok? && UidPage(uid) !in old(pc.pages.cache) ==> r.value.page.data[..] == ReadPage(pc.file, UidPage(uid))
      ensures r.Ok? ==> pc.pages.references == old(pc.pages.references)[UidPage(uid) := RefCount(old(pc.pages.references), UidPage(uid)) + 1]
      ensures r.Err? && r.error != Panic ==> pc.pages.cache == old(pc.pages.cache) && pc.pages.references == old(pc.pages.references)
    {
      var no := UidPage(uid);
      if no < 1 {
        return Err(Panic);
      }
      var got := pc.GetPage(no);
      if got.Err? {
        return Err(got.error);
      }
      r := ParseDataItem(got.value, UidOffset(uid));
    }

    /**
     * `read`: the data item at `uid`, or nothing when it has been marked
     * invalid, in which case its page is released again.
     */
    method Read(uid: I64) returns (r: Result<Option<DataItemImpl>>)
      requires Valid()
      modifies pc.pages, pc`file, pc.pages.cache.Values
      ensures Valid()
      ensures UidPage(uid) < 1 ==> r == Err(Panic)
      ensures r.Ok? ==> UidPage(uid) >= 1 && 0 <= UidOffset(uid) && UidOffset(uid) + OFFSET_DATA <= PAGE_SIZE
      ensures r.Ok? ==> (r.value.None? <==> !IsValidRaw(old(PageView(pc, UidPage(uid)))[UidOffset(uid)..]))
      ensures r.Ok? && r.value.Some? ==>
        var item := r.value.value;
        && fresh(item) && item.Valid()
        && item.page.pageNumber == UidPage(uid) && item.start == UidOffset(uid)
        && item.page.data[..] == old(PageView(pc, UidPage(uid)))
        && item.IsValid()
      ensures r.Ok? && r.value.None? ==> pc.pages.cache == old(pc.pages.cache)
    {
      var got := GetForCache(uid);
      assert IndexValid() && lg.position >= 0;
      if got.Err? {
        return Err(got.error);
      }
      var item := got.value;
      ghost var view := item.page.data[..];
      assert item.Raw()[OFFSET_VALID] == view[item.start..][OFFSET_VALID];
      if !item.IsValid() {
        Unpin(item.page, old(pc.pages.cache), old(pc.pages.references));
        return Ok(None);
      }
      r := Ok(Some(item));
    }

    /**
     * `initPageIndex`: pages 2 to the last are filed, in order, under their
     * free space, each pinned and released in turn. Stated for a cache that
     * holds no page beyond page one, as when the database is opened.
     */
    method InitPageIndex() returns (r: Result<()>)
      requires Valid() && forall no :: no in pc.pages.cache ==> no < 2
      modifies pc.pages, pc`file, pIndex.lists
      ensures Valid() && pc.pageNumber == old(pc.pageNumber)
      ensures var image := IndexImage(old(pIndex.lists[..]), old(pc.file), 2, old(pc.pageNumber));
        && (r.Ok? ==> image == Some(pIndex.lists[..]))
        && (r.Err? ==> r.error in {Panic, OutOfBounds})
        && (r == Err(OutOfBounds) ==> image.None?)
        && (old(pc.pages.count) < pc.pages.capacity ==> r != Err(Panic))
      ensures r.Ok? ==> pc.file == old(pc.file) && pc.pages.cache == old(pc.pages.cache)
    {
      ghost var goal := IndexImage(pIndex.lists[..], pc.file, 2, pc.pageNumber);
      ghost var file0, cache0 := pc.file, pc.pages.cache;
      var pageNumber := pc.pageNumber;
      var i := 2;
      while i <= pageNumber
        invariant 2 <= i && (i <= pageNumber + 1 || i == 2)
        invariant pc.Valid() && IndexValid() && lg.position >= 0 && pc.pageNumber == pageNumber
        invariant pc.file == file0 && pc.pages.cache == cache0 && pc.pages.count == old(pc.pages.count)
        invariant IndexImage(pIndex.lists[..], file0, i, pageNumber) == goal
        decreases pageNumber - i
      {
        r := IndexPage(i);
        if r.Err? {
          return;
        }
        i := i + 1;
      }
      r := Ok(());
    }

    /**
     * One round of `initPageIndex`: pin page `no`, file it under its free
     * space and release it. The engine stops when the page cannot be
     * pinned, and a free space outside every bucket fails the array access
     * with the page still pinned.
     */
    method IndexPage(no: int) returns (r: Result<()>)
      requires pc.Valid() && IndexValid() && 2 <= no <= pc.pageNumber && no !in pc.pages.cache
      modifies pc.pages, pc`file, pIndex.lists
      ensures pc.Valid() && IndexValid() && pc.pageNumber == old(pc.pageNumber)
      ensures var free := CommonPage.PageFreeSpace(ReadPage(old(pc.file), no));
        && (r == Err(Panic) <==> old(pc.pages.count) == pc.pages.capacity)
        && (r == Err(OutOfBounds) <==> old(pc.pages.count) != pc.pages.capacity && !(0 <= Bucket(free) <= INTERVALS_NO))
        && (r.Ok? ==> 0 <= Bucket(free) <= INTERVALS_NO && pIndex.lists[..] == AddImage(old(pIndex.lists[..]), no, free))
      ensures r.Err? ==> r.error in {Panic, OutOfBounds}
      ensures r.Ok? ==>
        && pc.file == old(pc.file) && pc.pages.cache == old(pc.pages.cache)
        && pc.pages.references == old(pc.pages.references) && pc.pages.count == old(pc.pages.count)
    {
      ghost var cache0, references0 := pc.pages.cache, pc.pages.references;
      var got := pc.GetPage(no);
      if got.Err? {
        return Err(Panic);
      }
      var page := got.value;
      var free := CommonPage.GetPageFreeSpace(page);
      if !(0 <= Bucket(free) <= INTERVALS_NO) {
        return Err(OutOfBounds);
      }
      AddWithin(pIndex.lists[..], no, free, pc.pageNumber);
      pIndex.Add(no, free);
      Unpin(page, cache0, references0);
      r := Ok(());
    }

    /** Drops the reference a read took on `page`, leaving the cache as it was before the read. */
    method Unpin(page: Page, ghost cache0: map<int, Page>, ghost references0: map<int, int>)
      requires pc.Valid() && page.pageNumber >= 1 && cache0.Keys == references0.Keys
      requires pc.pages.cache == cache0[page.pageNumber := page]
      requires page.pageNumber in cache0 ==> cache0[page.pageNumber] == page && references0[page.pageNumber] >= 1
      requires pc.pages.references == references0[page.pageNumber := RefCount(references0, page.pageNumber) + 1]
      modifies pc.pages, pc`file, page
      ensures pc.Valid() && pc.pages.cache == cache0 && pc.pages.references == references0
      ensures page.pageNumber in cache0 ==> pc.file == old(pc.file) && page.dirty == old(page.dirty)
      ensures page.pageNumber !in cache0 ==>
        && !page.dirty
        && pc.file == if old(page.dirty) then WriteAt(old(pc.file), PageOffset(page.pageNumber), page.data[..]) else old(pc.file)
    {
      ghost var no := page.pageNumber;
      if no in cache0 {
        assert pc.pages.cache == cache0;
        assert pc.pages.references[no] >= 2;
      } else {
        assert pc.pages.references[no] == 1;
        assert pc.pages.cache - {no} == cache0;
        assert pc.pages.references - {no} == references0;
      }
      pc.Release(page);
    }

    /**
     * The page-selection loop of `insert`: up to five attempts, each taking
     * a page with room for `size` bytes from the index or else appending an
     * empty page to the file and filing it.
     */
    method SelectPage(size: int) returns (info: Option<PageInfo>)
      requires Valid() && 0 <= size
      modifies pIndex.lists, pc`file, pc`pageNumber
      ensures Valid()
      ensures info == SelectLoop(old(pIndex.lists[..]), size, INSERT_ATTEMPTS, old(pc.pageNumber) + 1).0
      ensures pIndex.lists[..] == SelectLoop(old(pIndex.lists[..]), size, INSERT_ATTEMPTS, old(pc.pageNumber) + 1).1
      ensures old(pc.pageNumber) <= pc.pageNumber <= old(pc.pageNumber) + INSERT_ATTEMPTS
      ensures pc.file == EmptyPagesAppended(old(pc.file), old(pc.pageNumber), pc.pageNumber)
      ensures info.Some? ==> 1 <= info.value.pageNo <= pc.pageNumber
    {
      ghost var start, file0, last0 := pIndex.lists[..], pc.file, pc.pageNumber;
      ghost var goal := SelectLoop(start, size, INSERT_ATTEMPTS, last0 + 1);
      ghost var left: nat := INSERT_ATTEMPTS;
      var i := 0;
      info := None;
      while i < INSERT_ATTEMPTS
        invariant 0 <= i <= INSERT_ATTEMPTS && left == INSERT_ATTEMPTS - i
        invariant Valid() && info.None?
        invariant pc.pageNumber == last0 + i
        invariant goal == SelectLoop(pIndex.lists[..], size, left, pc.pageNumber + 1)
        invariant pc.file == EmptyPagesAppended(file0, last0, pc.pageNumber)
      {
        ghost var leftAfter := left - 1;
        info := Attempt(size, goal, left, leftAfter, file0, last0);
        if info.Some? {
          break;
        }
        left := leftAfter;
        i := i + 1;
        assert goal == SelectLoop(pIndex.lists[..], size, left, pc.pageNumber + 1);
      }
    }

    /**
     * One attempt of the loop: a page with room from the index, or else a
     * new empty page at the end of the file, filed as wholly free.
     */
    method Attempt(size: int, ghost goal: (Option<PageInfo>, seq<seq<PageInfo>>), ghost left: nat, ghost leftAfter: nat,
                   ghost file0: seq<Byte>, ghost last0: int)
        returns (info: Option<PageInfo>)
      requires IndexValid() && 0 <= size && left > 0 && leftAfter == left - 1
      requires 0 <= last0 <= pc.pageNumber && pc.file == EmptyPagesAppended(file0, last0, pc.pageNumber)
      requires goal == SelectLoop(pIndex.lists[..], size, left, pc.pageNumber + 1)
      modifies pIndex.lists, pc`file, pc`pageNumber
      ensures IndexValid()
      ensures info.Some? ==>
        && goal == (info, pIndex.lists[..])
        && pc.pageNumber == old(pc.pageNumber) && pc.file == old(pc.file)
        && 1 <= info.value.pageNo <= pc.pageNumber
      ensures info.None? ==>
        && goal == SelectLoop(pIndex.lists[..], size, leftAfter, pc.pageNumber + 1)
        && pc.pageNumber == old(pc.pageNumber) + 1
        && pc.file == EmptyPagesAppended(file0, last0, pc.pageNumber)
    {
      EmptyPageBucket();
      ghost var before, next := pIndex.lists[..], pc.pageNumber + 1;
      SelectFittingWithin(before, size, pc.pageNumber);
      info := pIndex.SelectFitting(size);
      if info.Some? {
        SelectLoopTakes(goal, before, left, next, size);
        return;
      }
      ghost var grown := AddImage(before, next, CommonPage.MAX_FREE_SPACE);
      SelectLoopAdvance(goal, before, left, next, grown, leftAfter, next + 1, size);
      assert pIndex.lists[..] == before;
      Grow(file0, last0);
      assert pIndex.lists[..] == grown && pc.pageNumber + 1 == next + 1;
    }

    /**
     * `insert`: wraps the bytes as a data item, stops the engine with
     * `DataTooLarge` on one larger than a page can hold, selects a page
     * (appending empty pages as needed; no page after every attempt stops it
     * with `DatabaseBusy`) and places the record there. `pageNo` is the page selected and `before`
     * its bytes at the time of the insert.
     */
    method Insert(xid: I64, data: seq<Byte>) returns (r: Result<I64>, ghost pageNo: int, ghost before: seq<Byte>)
      requires Valid() && pc.pageNumber + INSERT_ATTEMPTS < TWO_31
      modifies pIndex.lists, pc.pages, pc`file, pc`pageNumber, lg`file, lg`position, lg`xChecksum
      modifies pc.pages.cache.Values, set p | p in pc.pages.cache.Values :: p.data
      ensures Valid()
      ensures |WrapDataItemRaw(data)| > CommonPage.MAX_FREE_SPACE ==>
        && r == Err(DataTooLarge)
        && pIndex.lists[..] == old(pIndex.lists[..]) && pc.pages.cache == old(pc.pages.cache)
        && pc.file == old(pc.file) && pc.pageNumber == old(pc.pageNumber) && lg.file == old(lg.file)
      ensures |WrapDataItemRaw(data)| <= CommonPage.MAX_FREE_SPACE ==>
        var selected := SelectLoop(old(pIndex.lists[..]), |WrapDataItemRaw(data)|, INSERT_ATTEMPTS, old(pc.pageNumber) + 1).0;
        && old(pc.pageNumber) <= pc.pageNumber <= old(pc.pageNumber) + INSERT_ATTEMPTS
        && (selected.None? ==> r == Err(DatabaseBusy))
        && (selected.Some? ==> pageNo == selected.value.pageNo && 1 <= pageNo <= pc.pageNumber)
      ensures r.Err? ==> r.error in {DataTooLarge, DatabaseBusy, CacheFull, OutOfBounds}
      ensures 1 <= pageNo ==>
        before == if pageNo in old(pc.pages.cache) then old(pc.pages.cache[pageNo].data[..])
                  else if pageNo <= old(pc.pageNumber) then ReadPage(old(pc.file), pageNo)
                  else CommonPage.InitRaw()
      ensures 1 <= pageNo && r.Err? && r.error == OutOfBounds ==> !HasRoom(before, WrapDataItemRaw(data))
      ensures r.Ok? ==>
        && 1 <= pageNo && HasRoom(before, WrapDataItemRaw(data))
        && UidPage(r.value) == pageNo && UidOffset(r.value) == CommonPage.FreeOffset(before)
        && PageView(pc, pageNo) == CommonPage.InsertImage(before, WrapDataItemRaw(data))
      ensures 1 <= pageNo && (r.Ok? || r.error == OutOfBounds) ==>
        lg.file == Logger.AfterLog(old(lg.file), old(lg.position), old(lg.xChecksum),
                                  LogInsert(xid, pageNo, CommonPage.FreeOffset(before), WrapDataItemRaw(data)))
    {
      var raw := WrapDataItemRaw(data);
      if |raw| > CommonPage.MAX_FREE_SPACE {
        return Err(DataTooLarge), 0, [];
      }
      ghost var file0, last0 := pc.file, pc.pageNumber;
      var info := SelectPage(|raw|);
      if info.None? {
        return Err(DatabaseBusy), 0, [];
      }
      var no := info.value.pageNo;
      pageNo := no;
      if no in pc.pages.cache {
        assert pc.pages.cache[no].data[..] == old(pc.pages.cache[no].data[..]);
      }
      EmptyPagesRead(file0, last0, pc.pageNumber, no);
      before := PageView(pc, no);
      r := Place(xid, raw, no, before);
    }

    /**
     * The body of `insert` once a page is chosen: pin the page, log the
     * insert with the page's free offset, copy the record in, release the
     * page and file it again under its new free space. When the page cannot
     * be pinned it is filed as full; when the record does not fit, the copy
     * fails after the log record is written and the page stays pinned.
     */
    method Place(xid: I64, raw: seq<Byte>, pageNo: int, ghost before: seq<Byte>)
        returns (r: Result<I64>)
      requires pc.Valid() && IndexValid() && lg.position >= 0 && 1 <= pageNo <= pc.pageNumber < TWO_31 && |raw| <= CommonPage.MAX_FREE_SPACE
      requires before == PageView(pc, pageNo)
      modifies pIndex.lists, pc.pages, pc`file, lg`file, lg`position, lg`xChecksum, CachedFrame(pc.pages.cache, pageNo)
      ensures pc.Valid() && IndexValid() && lg.position >= 0
      ensures pc.pageNumber == old(pc.pageNumber)
      ensures r.Err? ==> r.error in {CacheFull, OutOfBounds}
      ensures r == Err(CacheFull) ==> pIndex.lists[..] == AddImage(old(pIndex.lists[..]), pageNo, 0)
      ensures r == Err(OutOfBounds) ==> !HasRoom(before, raw)
      ensures r.Ok? ==>
        && HasRoom(before, raw)
        && UidPage(r.value) == pageNo && UidOffset(r.value) == CommonPage.FreeOffset(before)
        && PageView(pc, pageNo) == CommonPage.InsertImage(before, raw)
      ensures r != Err(CacheFull) ==>
        lg.file == Logger.AfterLog(old(lg.file), old(lg.position), old(lg.xChecksum),
                                  LogInsert(xid, pageNo, CommonPage.FreeOffset(before), raw))
    {
      ghost var lists0, cache0, references0 := pIndex.lists[..], pc.pages.cache, pc.pages.references;
      var got := pc.GetPage(pageNo);
      assert pIndex.lists[..] == lists0;
      if got.Err? {
        AddWithin(lists0, pageNo, 0, pc.pageNumber);
        pIndex.Add(pageNo, 0);
        return Err(got.error);
      }
      var page := got.value;
      r := PlaceInto(xid, raw, page, before, lists0, cache0, references0);
    }

    /** `insert` on a pinned page holding `before`, from the log record to the uid. */
    method PlaceInto(xid: I64, raw: seq<Byte>, page: Page, ghost before: seq<Byte>, ghost lists0: seq<seq<PageInfo>>,
                     ghost cache0: map<int, Page>, ghost references0: map<int, int>)
        returns (r: Result<I64>)
      requires pc.Valid() && IndexValid() && lg.position >= 0
      requires 1 <= page.pageNumber <= pc.pageNumber < TWO_31 && page.data.Length == PAGE_SIZE
      requires page.data[..] == before && pIndex.lists[..] == lists0
      requires |raw| <= CommonPage.MAX_FREE_SPACE && cache0.Keys == references0.Keys
      requires pc.pages.cache == cache0[page.pageNumber := page]
      requires page.pageNumber in cache0 ==> cache0[page.pageNumber] == page && references0[page.pageNumber] >= 1
      requires page.pageNumber !in cache0 ==> !page.dirty
      requires pc.pages.references == references0[page.pageNumber := RefCount(references0, page.pageNumber) + 1]
      modifies pIndex.lists, pc.pages, pc`file, lg`file, lg`position, lg`xChecksum, page, page.data
      ensures pc.Valid() && IndexValid() && lg.position >= 0
      ensures lg.file == Logger.AfterLog(old(lg.file), old(lg.position), old(lg.xChecksum),
                                        LogInsert(xid, page.pageNumber, CommonPage.FreeOffset(before), raw))
      ensures HasRoom(before, raw) ==>
        && r == Ok(AddressToUid(page.pageNumber, CommonPage.FreeOffset(before)))
        && UidPage(r.value) == page.pageNumber && UidOffset(r.value) == CommonPage.FreeOffset(before)
        && page.data[..] == CommonPage.InsertImage(before, raw)
        && pc.pages.cache == cache0 && pc.pages.references == references0
        && (page.pageNumber in cache0 ==> pc.file == old(pc.file))
        && (page.pageNumber !in cache0 ==> pc.file == WriteAt(old(pc.file), PageOffset(page.pageNumber), page.data[..]))
        && pIndex.lists[..] == AddImage(lists0, page.pageNumber, CommonPage.PageFreeSpace(CommonPage.InsertImage(before, raw)))
        && PageView(pc, page.pageNumber) == CommonPage.InsertImage(before, raw)
      ensures !HasRoom(before, raw) ==>
        && r == Err(OutOfBounds)
        && pIndex.lists[..] == RefileImage(lists0, page.pageNumber, CommonPage.PageFreeSpace(before))
    {
      var fso := CommonPage.GetFreeSpaceOffset(page);
      lg.Log(LogInsert(xid, page.pageNumber, fso, raw));
      if fso < 0 || fso + |raw| > PAGE_SIZE {
        r := Overflow(page, lists0);
      } else {
        r := Fill(raw, page, before, lists0, cache0, references0);
      }
    }

    /**
     * The copy into the page failed: the `finally` files the page under its
     * free space, which itself fails when that has no bucket.
     */
    method Overflow(page: Page, ghost lists0: seq<seq<PageInfo>>) returns (r: Result<I64>)
      requires IndexValid() && 1 <= page.pageNumber <= pc.pageNumber && page.data.Length == PAGE_SIZE
      requires pIndex.lists[..] == lists0
      modifies pIndex.lists
      ensures IndexValid() && r == Err(OutOfBounds)
      ensures pIndex.lists[..] == RefileImage(lists0, page.pageNumber, CommonPage.PageFreeSpace(page.data[..]))
    {
      var free := CommonPage.GetPageFreeSpace(page);
      if 0 <= Bucket(free) <= INTERVALS_NO {
        AddWithin(lists0, page.pageNumber, free, pc.pageNumber);
        pIndex.Add(page.pageNumber, free);
      }
      r := Err(OutOfBounds);
    }

    /** The record fits: copy it in, release the page and file it under its new free space. */
    method Fill(raw: seq<Byte>, page: Page, ghost before: seq<Byte>, ghost lists0: seq<seq<PageInfo>>,
                ghost cache0: map<int, Page>, ghost references0: map<int, int>)
        returns (r: Result<I64>)
      requires pc.Valid() && IndexValid()
      requires 1 <= page.pageNumber <= pc.pageNumber < TWO_31 && page.data.Length == PAGE_SIZE
      requires page.data[..] == before && pIndex.lists[..] == lists0 && HasRoom(before, raw)
      requires cache0.Keys == references0.Keys
      requires pc.pages.cache == cache0[page.pageNumber := page]
      requires page.pageNumber in cache0 ==> cache0[page.pageNumber] == page && references0[page.pageNumber] >= 1
      requires page.pageNumber !in cache0 ==> !page.dirty
      requires pc.pages.references == references0[page.pageNumber := RefCount(references0, page.pageNumber) + 1]
      modifies pIndex.lists, pc.pages, pc`file, page, page.data
      ensures pc.Valid() && IndexValid()
      ensures r == Ok(AddressToUid(page.pageNumber, CommonPage.FreeOffset(before)))
      ensures UidPage(r.value) == page.pageNumber && UidOffset(r.value) == CommonPage.FreeOffset(before)
      ensures page.data[..] == CommonPage.InsertImage(before, raw)
      ensures pc.pages.cache == cache0 && pc.pages.references == references0
      ensures page.pageNumber in cache0 ==> pc.file == old(pc.file)
      ensures page.pageNumber !in cache0 ==> pc.file == WriteAt(old(pc.file), PageOffset(page.pageNumber), page.data[..])
      ensures pIndex.lists[..] == AddImage(lists0, page.pageNumber, CommonPage.PageFreeSpace(CommonPage.InsertImage(before, raw)))
      ensures PageView(pc, page.pageNumber) == CommonPage.InsertImage(before, raw)
    {
      var offset := CommonPage.Insert(page, raw);
      Unpin(page, cache0, references0);
      if page.pageNumber !in cache0 {
        WritePageReads(old(pc.file), page.pageNumber, page.data[..], page.pageNumber);
      }
      var free := CommonPage.GetPageFreeSpace(page);
      BucketRange(free);
      AddWithin(lists0, page.pageNumber, free, pc.pageNumber);
      pIndex.Add(page.pageNumber, free);
      r := Ok(AddressToUid(page.pageNumber, offset));
      UidRoundTrip(page.pageNumber, offset);
    }

    /** The fallback of an attempt: a new empty page at the end of the file, filed as wholly free. */
    method Grow(ghost file0: seq<Byte>, ghost last0: int)
      requires IndexValid() && 0 <= last0 <= pc.pageNumber && pc.file == EmptyPagesAppended(file0, last0, pc.pageNumber)
      modifies pIndex.lists, pc`file, pc`pageNumber
      ensures IndexValid()
      ensures pc.pageNumber == old(pc.pageNumber) + 1
      ensures pc.file == EmptyPagesAppended(file0, last0, pc.pageNumber)
      ensures pIndex.lists[..] == AddImage(old(pIndex.lists[..]), pc.pageNumber, CommonPage.MAX_FREE_SPACE)
    {
      ghost var mid, last := pc.file, pc.pageNumber;
      EmptyPageBucket();
      var pno := pc.NewPage(CommonPage.InitRaw());
      AppendOne(file0, last0, last, mid, pno, pc.file);
      AddWithin(pIndex.lists[..], pno, CommonPage.MAX_FREE_SPACE, pno);
      pIndex.Add(pno, CommonPage.MAX_FREE_SPACE);
    }
  }
}
