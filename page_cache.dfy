/**
 * The page file (`PageCacheImpl`): page `n` (numbered from 1) occupies bytes
 * `(n - 1) * PAGE_SIZE` onward of the database file, which is an in-memory
 * byte sequence here. Pages are held in a reference-counted cache and written
 * back on eviction when dirty.
 */
module PageCache {
  import opened Bytes
  import opened Outcomes
  import opened Pages
  import opened AbstractCache

  /** The smallest page-cache capacity accepted. */
  const MEM_MIN_LIM: int := 10

  /** `pageOffset` */
  function PageOffset(no: int): int
  {
    (no - 1) * PAGE_SIZE
  }

  /** Page numbers are positive and consecutive pages do not overlap. */
  lemma PageOffsetLayout(no: int)
    requires no >= 1
    ensures PageOffset(no) >= 0
    ensures PageOffset(no + 1) == PageOffset(no) + PAGE_SIZE
    ensures PageOffset(no) / PAGE_SIZE == no - 1 && PageOffset(no) % PAGE_SIZE == 0
  {
  }

  /** What `getForCache` reads for a page: short reads past the end leave zeros. */
  function ReadPage(file: seq<Byte>, no: int): (r: seq<Byte>)
    requires no >= 1
    ensures |r| == PAGE_SIZE
  {
    seq<Byte>(PAGE_SIZE, i requires 0 <= i < PAGE_SIZE => ReadByte(file, PageOffset(no) + i))
  }

  /** A page lying wholly inside the file reads as its bytes there. */
  lemma ReadPageWithinFile(file: seq<Byte>, no: int)
    requires no >= 1 && PageOffset(no) + PAGE_SIZE <= |file|
    ensures ReadPage(file, no) == file[PageOffset(no)..PageOffset(no) + PAGE_SIZE]
  {
    var r := ReadPage(file, no);
    assert forall i :: 0 <= i < PAGE_SIZE ==> r[i] == file[PageOffset(no)..PageOffset(no) + PAGE_SIZE][i];
  }

  /** The page counter at start-up: `(int) length / PAGE_SIZE`. */
  function InitialPageNumber(length: nat): (n: int)
    ensures length < TWO_31 ==> n == length / PAGE_SIZE && n >= 0
  {
    JavaDiv(Wrap32(length), PAGE_SIZE)
  }

  /** A page written and then read back gives the bytes written. */
  lemma WriteThenReadPage(file: seq<Byte>, no: int, data: seq<Byte>)
    requires no >= 1 && |data| == PAGE_SIZE
    ensures ReadPage(WriteAt(file, PageOffset(no), data), no) == data
  {
  }

  /** Writing one page leaves every other page's bytes as they were. */
  lemma WritePageKeepsOthers(file: seq<Byte>, no: int, data: seq<Byte>, other: int)
    requires no >= 1 && other >= 1 && other != no && |data| == PAGE_SIZE
    requires PageOffset(other) + PAGE_SIZE <= |file|
    ensures ReadPage(WriteAt(file, PageOffset(no), data), other) == ReadPage(file, other)
  {
    var w := WriteAt(file, PageOffset(no), data);
    forall i | 0 <= i < PAGE_SIZE
      ensures ReadPage(w, other)[i] == ReadPage(file, other)[i]
    {
      var at := PageOffset(other) + i;
      if other < no {
        assert at < PageOffset(no);
      } else {
        assert at >= PageOffset(no) + PAGE_SIZE;
      }
      assert at < |file| <= |w|;
      assert w[at] == file[at];
      assert ReadPage(w, other)[i] == ReadByte(w, at);
      assert ReadPage(file, other)[i] == ReadByte(file, at);
    }
  }

  /**
   * The file after `truncateByBgno(maxPageNo)`: exactly `maxPageNo` pages,
   * the bytes that were there kept and any added bytes zero.
   */
  function TruncateImage(file: seq<Byte>, maxPageNo: nat): (r: seq<Byte>)
    ensures |r| == maxPageNo * PAGE_SIZE
    ensures forall i :: 0 <= i < |r| ==> r[i] == ReadByte(file, i)
  {
    seq<Byte>(maxPageNo * PAGE_SIZE, i requires 0 <= i < maxPageNo * PAGE_SIZE => ReadByte(file, i))
  }

  /** Truncation keeps every page up to the new last page as it read before. */
  lemma TruncateKeepsPages(file: seq<Byte>, maxPageNo: nat, no: int)
    requires 1 <= no <= maxPageNo
    ensures ReadPage(TruncateImage(file, maxPageNo), no) == ReadPage(file, no)
  {
    var t := TruncateImage(file, maxPageNo);
    PageOffsetLayout(no);
    assert PageOffset(no) + PAGE_SIZE <= |t| by {
      assert PageOffset(no) + PAGE_SIZE == no * PAGE_SIZE;
    }
    forall i | 0 <= i < PAGE_SIZE
      ensures ReadPage(t, no)[i] == ReadPage(file, no)[i]
    {
      assert ReadPage(t, no)[i] == ReadByte(t, PageOffset(no) + i);
    }
  }

  /** Writing page `no` changes what page `no` reads and no other page. */
  lemma WritePageReads(file: seq<Byte>, no: int, data: seq<Byte>, q: int)
    requires no >= 1 && q >= 1 && |data| == PAGE_SIZE
    ensures ReadPage(WriteAt(file, PageOffset(no), data), q) == if q == no then data else ReadPage(file, q)
  {
    if q != no {
      var w := WriteAt(file, PageOffset(no), data);
      forall i | 0 <= i < PAGE_SIZE
        ensures ReadPage(w, q)[i] == ReadPage(file, q)[i]
      {
        var at := PageOffset(q) + i;
        if q < no {
          assert at < PageOffset(no);
        } else {
          assert at >= PageOffset(no) + PAGE_SIZE;
        }
        assert ReadPage(w, q)[i] == ReadByte(w, at);
        assert ReadPage(file, q)[i] == ReadByte(file, at);
      }
    } else {
      WriteThenReadPage(file, no, data);
    }
  }

  /** How many holders a key has: 0 when it is not cached. */
  function RefCount(references: map<int, int>, no: int): int
  {
    if no in references then references[no] else 0
  }

  /** No key is listed twice. */
  predicate Distinct(order: seq<int>)
  {
    forall i, j :: 0 <= i < j < |order| ==> order[i] != order[j]
  }

  /** The keys of `order` that are in `keys`, in the order `order` lists them. */
  function Present(order: seq<int>, keys: set<int>): (r: seq<int>)
    ensures forall k :: k in r <==> k in order && k in keys
    ensures forall i :: 0 <= i < |r| ==> r[i] in keys
    ensures Distinct(order) ==> Distinct(r)
  {
    if order == [] then []
    else if order[0] in keys then [order[0]] + Present(order[1..], keys)
    else Present(order[1..], keys)
  }

  /** What write-back sees of one cached page: its number, its dirty flag and its bytes. */
  datatype Held = Held(no: int, dirty: bool, data: seq<Byte>)

  /** The file after each dirty page of `hs`, in order, is written back at its offset. */
  function WriteBackImage(file: seq<Byte>, hs: seq<Held>): seq<Byte>
    requires forall i :: 0 <= i < |hs| ==> hs[i].no >= 1
  {
    if hs == [] then file
    else
      var before := WriteBackImage(file, hs[..|hs| - 1]);
      var h := hs[|hs| - 1];
      if h.dirty then WriteAt(before, PageOffset(h.no), h.data) else before
  }

  /**
   * After write-back, a page that was held dirty reads back the bytes it
   * held, and a page that was not held dirty reads as it did before.
   */
  lemma {:induction false} WriteBackReads(file: seq<Byte>, hs: seq<Held>, q: int)
    requires q >= 1
    requires forall i :: 0 <= i < |hs| ==> hs[i].no >= 1 && |hs[i].data| == PAGE_SIZE
    requires forall i, j :: 0 <= i < j < |hs| ==> hs[i].no != hs[j].no
    ensures forall i :: 0 <= i < |hs| && hs[i].no == q && hs[i].dirty ==>
      ReadPage(WriteBackImage(file, hs), q) == hs[i].data
    ensures (forall i :: 0 <= i < |hs| && hs[i].no == q ==> !hs[i].dirty) ==>
      ReadPage(WriteBackImage(file, hs), q) == ReadPage(file, q)
  {
    if hs != [] {
      var n := |hs| - 1;
      var init := hs[..n];
      assert forall i :: 0 <= i < n ==> init[i] == hs[i];
      WriteBackReads(file, init, q);
      if hs[n].dirty {
        WritePageReads(WriteBackImage(file, init), hs[n].no, hs[n].data, q);
      }
    }
  }

  class PageCache {
    /** The database file. */
    var file: seq<Byte>
    /** The number of the last page of the file. */
    var pageNumber: int
    /** The cache of loaded pages, keyed by page number. */
    const pages: Cache<Page>

    ghost predicate Valid()
      reads pages
    {
      && pages.Valid()
      && pages.capacity >= MEM_MIN_LIM
      && (forall no :: no in pages.cache ==>
            no >= 1 && pages.cache[no].pageNumber == no && pages.cache[no].data.Length == PAGE_SIZE)
    }

    constructor (contents: seq<Byte>, capacity: int)
      requires capacity >= MEM_MIN_LIM
      ensures Valid() && fresh(pages)
      ensures file == contents && pageNumber == InitialPageNumber(|contents|)
      ensures pages.cache == map[] && pages.capacity == capacity
    {
      file := contents;
      pageNumber := InitialPageNumber(|contents|);
      pages := new Cache(capacity);
    }

    /** The constructor's capacity check: below `MEM_MIN_LIM` the engine stops. */
    static method Open(contents: seq<Byte>, capacity: int) returns (r: Result<PageCache>)
      ensures r.Err? <==> capacity < MEM_MIN_LIM
      ensures r.Err? ==> r.error == MemTooSmall
      ensures r.Ok? ==> fresh(r.value) && fresh(r.value.pages) && r.value.Valid()
      ensures r.Ok? ==> r.value.file == contents && r.value.pageNumber == InitialPageNumber(|contents|)
      ensures r.Ok? ==> r.value.pages.cache == map[] && r.value.pages.capacity == capacity
    {
      if capacity < MEM_MIN_LIM {
        return Err(MemTooSmall);
      }
      var pc := new PageCache(contents, capacity);
      r := Ok(pc);
    }

    /** `getForCache`: a fresh, clean page holding the file's bytes for `no`. */
    method GetForCache(no: int) returns (page: Page)
      requires no >= 1
      ensures fresh(page) && fresh(page.data)
      ensures page.pageNumber == no && !page.dirty
      ensures page.data[..] == ReadPage(file, no)
    {
      var contents := file;
      var buffer := new Byte[PAGE_SIZE](i requires 0 <= i < PAGE_SIZE => ReadByte(contents, PageOffset(no) + i));
      page := new Page(no, buffer);
    }

    /** `flush`: the page's whole buffer written at its offset. */
    method Flush(page: Page)
      requires page.pageNumber >= 1
      modifies this`file
      ensures file == WriteAt(old(file), PageOffset(page.pageNumber), page.data[..])
    {
      file := WriteAt(file, PageOffset(page.pageNumber), page.data[..]);
    }

    /** `releaseForCache`: a dirty page is written back and becomes clean; a clean one changes nothing. */
    method ReleaseForCache(page: Page)
      requires page.pageNumber >= 1
      modifies this`file, page
      ensures old(page.dirty) ==> file == WriteAt(old(file), PageOffset(page.pageNumber), page.data[..])
      ensures !old(page.dirty) ==> file == old(file)
      ensures !page.dirty
    {
      if page.dirty {
        Flush(page);
        page.dirty := false;
      }
    }

    /** `newPage`: the next page number, written at once and not cached. */
    method NewPage(initData: seq<Byte>) returns (no: int)
      requires pageNumber >= 0
      modifies this`file, this`pageNumber
      ensures no == old(pageNumber) + 1 && pageNumber == no
      ensures file == WriteAt(old(file), PageOffset(no), initData)
    {
      pageNumber := pageNumber + 1;
      no := pageNumber;
      var buffer := new Byte[|initData|](i requires 0 <= i < |initData| => initData[i]);
      var pg := new Page(no, buffer);
      assert pg.data[..] == initData;
      Flush(pg);
    }

    /** `getPage`: through the cache; a miss loads the page from the file. */
    method GetPage(no: int) returns (r: Result<Page>)
      requires Valid() && no >= 1
      modifies pages
      ensures Valid()
      ensures no in old(pages.cache) ==> r == Ok(old(pages.cache)[no])
      ensures no !in old(pages.cache) && pages.capacity > 0 && old(pages.count) == pages.capacity ==>
        r == Err(CacheFull) && pages.cache == old(pages.cache)
      ensures r.Ok? && no !in old(pages.cache) ==>
        && fresh(r.value) && fresh(r.value.data)
        && r.value.data[..] == ReadPage(file, no) && !r.value.dirty
        && pages.cache == old(pages.cache)[no := r.value]
      ensures r.Ok? ==> r.value.pageNumber == no && r.value.data.Length == PAGE_SIZE
      ensures r.Ok? ==> pages.cache == old(pages.cache)[no := r.value]
      ensures r.Ok? ==> pages.references == old(pages.references)[no := RefCount(old(pages.references), no) + 1]
      ensures r.Err? ==> r.error == CacheFull && pages.cache == old(pages.cache) && pages.references == old(pages.references)
      ensures r.Err? <==> no !in old(pages.cache) && old(pages.count) == pages.capacity
    {
      var l := pages.Reserve(no);
      match l {
        case Hit(pg) =>
          r := Ok(pg);
        case Full =>
          r := Err(CacheFull);
        case Miss =>
          var pg := GetForCache(no);
          pages.Install(no, pg);
          r := Ok(pg);
      }
    }

    /** `release`: drops one reference; the last one evicts, writing back a dirty page. */
    method Release(page: Page)
      requires Valid()
      requires page.pageNumber in pages.cache && pages.cache[page.pageNumber] == page
      modifies pages, this`file, page
      ensures Valid()
      ensures var no := page.pageNumber;
        if old(pages.references)[no] == 1 then
          && pages.cache == old(pages.cache) - {no}
          && pages.references == old(pages.references) - {no}
          && !page.dirty
          && (old(page.dirty) ==> file == WriteAt(old(file), PageOffset(no), page.data[..]))
          && (!old(page.dirty) ==> file == old(file))
        else
          && pages.cache == old(pages.cache) && file == old(file)
          && pages.references == old(pages.references)[no := old(pages.references)[no] - 1]
          && page.dirty == old(page.dirty)
    {
      var evicted := pages.Release(page.pageNumber);
      if evicted.Some? {
        ReleaseForCache(evicted.value);
      }
    }

    /** `truncateByBgno`: the file is cut (or zero-extended) to `maxPageNo` whole pages. */
    method TruncateByBgno(maxPageNo: int)
      requires maxPageNo >= 0
      modifies this`file, this`pageNumber
      ensures file == TruncateImage(old(file), maxPageNo)
      ensures pageNumber == maxPageNo
    {
      var size := PageOffset(maxPageNo + 1);
      if size <= |file| {
        file := file[..size];
      } else {
        file := file + seq(size - |file|, _ => 0);
      }
      assert |file| == |TruncateImage(old(file), maxPageNo)|;
      pageNumber := maxPageNo;
    }

    /**
     * The loop of `close`: `releaseForCache` on the page `cached` holds for
     * each of `keys`, in turn.
     */
    method ReleaseAll(keys: seq<int>, cached: map<int, Page>) returns (ghost held: seq<Held>)
      requires Distinct(keys)
      requires forall j :: 0 <= j < |keys| ==> keys[j] in cached
      requires forall no :: no in cached ==> no >= 1 && cached[no].pageNumber == no
      modifies this`file, set no | no in cached :: cached[no]
      ensures |held| == |keys|
      ensures forall j :: 0 <= j < |keys| ==>
        held[j] == Held(keys[j], old(cached[keys[j]].dirty), cached[keys[j]].data[..])
      ensures forall j :: 0 <= j < |keys| ==> !cached[keys[j]].dirty
      ensures file == WriteBackImage(old(file), held)
    {
      held := [];
      var i := 0;
      while i < |keys|
        invariant 0 <= i <= |keys| && |held| == i
        invariant forall j :: 0 <= j < i ==>
          held[j] == Held(keys[j], old(cached[keys[j]].dirty), cached[keys[j]].data[..])
        invariant forall j :: i <= j < |keys| ==> cached[keys[j]].dirty == old(cached[keys[j]].dirty)
        invariant forall j :: 0 <= j < i ==> !cached[keys[j]].dirty
        invariant file == WriteBackImage(old(file), held)
      {
        var page := cached[keys[i]];
        var h := Held(keys[i], page.dirty, page.data[..]);
        assert (held + [h])[..i] == held;
        held := held + [h];
        ReleaseForCache(page);
        i := i + 1;
      }
    }

    /**
     * `close`, inherited from the cache: every cached page is handed to
     * `releaseForCache`, in the map's iteration order `order`, so each dirty
     * page is written back and left clean; the cache forgets every page.
     * `held` is what write-back saw of each page, in that order.
     */
    method Close(order: seq<int>) returns (ghost held: seq<Held>, ghost keys: seq<int>)
      requires Valid() && Distinct(order) && forall no :: no in pages.cache ==> no in order
      modifies pages, this`file, set no | no in pages.cache :: pages.cache[no]
      ensures pages.cache == map[] && pages.references == map[] && pages.count == old(pages.count)
      ensures keys == Present(order, old(pages.cache).Keys) && |held| == |keys|
      ensures forall i :: 0 <= i < |held| ==> held[i].no == keys[i] && keys[i] in old(pages.cache)
      ensures forall i :: 0 <= i < |held| ==>
        held[i].dirty == old(pages.cache[keys[i]].dirty) && held[i].data == old(pages.cache[keys[i]].data[..])
      ensures forall i :: 0 <= i < |held| ==> held[i].no >= 1 && |held[i].data| == PAGE_SIZE
      ensures forall i, j :: 0 <= i < j < |held| ==> held[i].no != held[j].no
      ensures forall no :: no in old(pages.cache) ==> !old(pages.cache)[no].dirty
      ensures file == WriteBackImage(old(file), held)
    {
      var cached := pages.cache;
      var present := Present(order, cached.Keys);
      keys := present;
      held := ReleaseAll(present, cached);
      var _ := pages.Close(present);
    }

    /** `flushPage`: writes the page whatever its dirty flag, and leaves the flag alone. */
    method FlushPage(page: Page)
      requires page.pageNumber >= 1
      modifies this`file
      ensures file == WriteAt(old(file), PageOffset(page.pageNumber), page.data[..])
      ensures page.dirty == old(page.dirty)
    {
      Flush(page);
    }
  }
}
