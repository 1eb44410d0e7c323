/**
 * The free-space index (`PageIndex`): 41 buckets of (page, free space)
 * records; a page with `f` free bytes is filed under bucket `f / 204`.
 */
module PageIndex {
  import opened Bytes
  import opened Outcomes
  import opened Pages

  const INTERVALS_NO: int := 40
  /** The width of a bucket: `PAGE_SIZE / INTERVALS_NO`, written out (see `ThresholdIsPageShare`). */
  const THRESHOLD: int := 204

  /** The bucket width is the page size shared out over the buckets, rounded down. */
  lemma ThresholdIsPageShare()
    ensures THRESHOLD == PAGE_SIZE / INTERVALS_NO
  {
  }

  datatype PageInfo = PageInfo(pageNo: int, freeSpace: int)

  /** The bucket `add` files a free-space amount under. */
  function Bucket(freeSpace: int): int
  {
    JavaDiv(freeSpace, THRESHOLD)
  }

  /** The threshold is 204, and every amount a page can have free has a bucket. */
  lemma BucketRange(freeSpace: int)
    requires 0 <= freeSpace <= PAGE_SIZE
    ensures THRESHOLD == 204
    ensures 0 <= Bucket(freeSpace) <= INTERVALS_NO
    ensures Bucket(freeSpace) * THRESHOLD <= freeSpace < (Bucket(freeSpace) + 1) * THRESHOLD
  {
  }

  /** Where `select` starts scanning: one bucket up, except from the top bucket. */
  function StartBucket(freeSpace: int): int
  {
    var number := Bucket(freeSpace);
    if number < INTERVALS_NO then number + 1 else number
  }

  /** The first non-empty bucket at or after `from`, if any. */
  function FirstNonEmpty(lists: seq<seq<PageInfo>>, from: nat): (r: Option<nat>)
    decreases |lists| - from
    ensures r.Some? ==> from <= r.value < |lists| && |lists[r.value]| > 0
    ensures r.Some? ==> forall j :: from <= j < r.value ==> |lists[j]| == 0
    ensures r.None? ==> forall j :: from <= j < |lists| ==> |lists[j]| == 0
  {
    if from >= |lists| then None
    else if |lists[from]| > 0 then Some(from)
    else FirstNonEmpty(lists, from + 1)
  }

  /** Buckets hold only records filed under them. */
  ghost predicate Filed(lists: seq<seq<PageInfo>>)
  {
    && |lists| == INTERVALS_NO + 1
    && forall i, k :: 0 <= i < |lists| && 0 <= k < |lists[i]| ==> Bucket(lists[i][k].freeSpace) == i
  }

  /** How many records the index holds. */
  function Total(lists: seq<seq<PageInfo>>): nat
  {
    if lists == [] then 0 else Total(lists[..|lists| - 1]) + |lists[|lists| - 1]|
  }

  /** Replacing one bucket changes the total by the change in that bucket's size. */
  lemma {:induction false} TotalUpdate(lists: seq<seq<PageInfo>>, b: nat, q: seq<PageInfo>)
    requires b < |lists|
    ensures Total(lists[b := q]) == Total(lists) - |lists[b]| + |q|
  {
    var n := |lists| - 1;
    var u := lists[b := q];
    assert u[..n] == if b == n then lists[..n] else lists[..n][b := q];
    if b < n {
      TotalUpdate(lists[..n], b, q);
    }
  }

  /** The buckets of a fresh index: all empty. */
  const EMPTY_LISTS: seq<seq<PageInfo>> := seq(INTERVALS_NO + 1, _ => [])

  /** The buckets after `add(pageNo, freeSpace)`. */
  function AddImage(lists: seq<seq<PageInfo>>, pageNo: int, freeSpace: int): seq<seq<PageInfo>>
    requires 0 <= Bucket(freeSpace) < |lists|
  {
    var b := Bucket(freeSpace);
    lists[b := lists[b] + [PageInfo(pageNo, freeSpace)]]
  }

  /** Removes and returns the head of the first non-empty bucket from `start` up. */
  function TakeFirstFrom(lists: seq<seq<PageInfo>>, start: nat): (Option<PageInfo>, seq<seq<PageInfo>>)
  {
    match FirstNonEmpty(lists, start)
    case None => (None, lists)
    case Some(b) => (Some(lists[b][0]), lists[b := lists[b][1..]])
  }

  /** What `select(freeSpace)` returns and the buckets it leaves. */
  function SelectImage(lists: seq<seq<PageInfo>>, freeSpace: int): (Option<PageInfo>, seq<seq<PageInfo>>)
    requires StartBucket(freeSpace) >= 0
  {
    TakeFirstFrom(lists, StartBucket(freeSpace))
  }

  /** `add` files exactly one record, keeps the buckets filed, and leaves the other buckets alone. */
  lemma AddProperties(lists: seq<seq<PageInfo>>, pageNo: int, freeSpace: int)
    requires Filed(lists) && 0 <= Bucket(freeSpace) <= INTERVALS_NO
    ensures Filed(AddImage(lists, pageNo, freeSpace))
    ensures Total(AddImage(lists, pageNo, freeSpace)) == Total(lists) + 1
  {
    TotalUpdate(lists, Bucket(freeSpace), lists[Bucket(freeSpace)] + [PageInfo(pageNo, freeSpace)]);
  }

  /** A record filed above bucket 0 has at least its bucket's lower bound free. */
  lemma BucketLowerBound(freeSpace: int)
    requires Bucket(freeSpace) >= 1
    ensures freeSpace >= Bucket(freeSpace) * THRESHOLD
  {
  }

  /** A non-negative amount lies below the lower bound of the next bucket. */
  lemma BucketUpperBound(freeSpace: int)
    requires 0 <= freeSpace
    ensures THRESHOLD == 204
    ensures freeSpace < (Bucket(freeSpace) + 1) * THRESHOLD
  {
  }

  /** Taking a record keeps the buckets filed, and takes one exactly when it returns one. */
  lemma TakeFirstProperties(lists: seq<seq<PageInfo>>, start: nat)
    requires Filed(lists)
    ensures Filed(TakeFirstFrom(lists, start).1)
    ensures TakeFirstFrom(lists, start).0.None? ==> TakeFirstFrom(lists, start).1 == lists
    ensures TakeFirstFrom(lists, start).0.Some? ==> Total(TakeFirstFrom(lists, start).1) == Total(lists) - 1
  {
    match FirstNonEmpty(lists, start)
    case None =>
    case Some(b) =>
      var after: seq<seq<PageInfo>> := lists[b := lists[b][1..]];
      TotalUpdate(lists, b, lists[b][1..]);
      forall i, k | 0 <= i < |after| && 0 <= k < |after[i]|
        ensures Bucket(after[i][k].freeSpace) == i
      {
        if i == b {
          assert after[i][k] == lists[b][k + 1];
        }
      }
  }

  /**
   * When the request is below the top bucket, the page `select` returns has
   * more free space than requested.
   */
  lemma SelectFits(lists: seq<seq<PageInfo>>, freeSpace: int)
    requires Filed(lists) && 0 <= freeSpace && Bucket(freeSpace) < INTERVALS_NO
    ensures SelectImage(lists, freeSpace).0.Some? ==>
      SelectImage(lists, freeSpace).0.value.freeSpace >= (Bucket(freeSpace) + 1) * THRESHOLD > freeSpace
  {
    TakeFirstFits(lists, freeSpace);
  }

  /**
   * A request in the top bucket (8160 bytes or more) is served from the top
   * bucket itself, so the page returned can have less free space than asked
   * for: a page with 8170 bytes free is returned for an 8180-byte request.
   */
  lemma SelectTopBucketShortfall()
    ensures var lists := seq(INTERVALS_NO, _ => []) + [[PageInfo(2, 8170)]];
      && Filed(lists)
      && SelectImage(lists, 8180).0 == Some(PageInfo(2, 8170))
      && 8170 < 8180
  {
    var lists: seq<seq<PageInfo>> := seq(INTERVALS_NO, _ => []) + [[PageInfo(2, 8170)]];
    assert Bucket(8170) == 40 && Bucket(8180) == 40;
    assert FirstNonEmpty(lists, 40) == Some(40);
  }

  /** The first record of `q`, from `from` on, with at least `freeSpace` bytes free. */
  function FirstFitting(q: seq<PageInfo>, freeSpace: int, from: nat): (r: Option<nat>)
    decreases |q| - from
    ensures r.Some? ==> from <= r.value < |q| && q[r.value].freeSpace >= freeSpace
    ensures r.Some? ==> forall j :: from <= j < r.value ==> q[j].freeSpace < freeSpace
    ensures r.None? ==> forall j :: from <= j < |q| ==> q[j].freeSpace < freeSpace
  {
    if from >= |q| then None
    else if q[from].freeSpace >= freeSpace then Some(from)
    else FirstFitting(q, freeSpace, from + 1)
  }

  /**
   * `select` as intended: below the top bucket, start one bucket above the
   * request's, as the engine does; a request in the top bucket takes the
   * first top-bucket record that has room for it, instead of the head.
   */
  function SelectFittingImage(lists: seq<seq<PageInfo>>, freeSpace: int): (Option<PageInfo>, seq<seq<PageInfo>>)
    requires 0 <= freeSpace && |lists| == INTERVALS_NO + 1
  {
    if Bucket(freeSpace) < INTERVALS_NO then TakeFirstFrom(lists, Bucket(freeSpace) + 1)
    else
      var top := lists[INTERVALS_NO];
      match FirstFitting(top, freeSpace, 0)
      case None => (None, lists)
      case Some(j) => (Some(top[j]), lists[INTERVALS_NO := top[..j] + top[j + 1..]])
  }

  /**
   * The intended `select` only returns records with room for the request
   * (strictly more below the top bucket), keeps the buckets filed, and takes
   * exactly one record when it returns one.
   */
  lemma SelectFittingFits(lists: seq<seq<PageInfo>>, freeSpace: int)
    requires Filed(lists) && 0 <= freeSpace
    ensures var (r, after) := SelectFittingImage(lists, freeSpace);
      && (r.Some? ==> r.value.freeSpace >= freeSpace)
      && (r.Some? && Bucket(freeSpace) < INTERVALS_NO ==> r.value.freeSpace >= (Bucket(freeSpace) + 1) * THRESHOLD > freeSpace)
      && Filed(after)
      && (r.None? ==> after == lists)
      && (r.Some? ==> Total(after) == Total(lists) - 1)
  {
    if Bucket(freeSpace) < INTERVALS_NO {
      TakeFirstFits(lists, freeSpace);
      TakeFirstProperties(lists, Bucket(freeSpace) + 1);
    } else {
      TopFittingProperties(lists, freeSpace);
    }
  }

  /** Below the top bucket, the record taken lies in a higher bucket than the request. */
  lemma TakeFirstFits(lists: seq<seq<PageInfo>>, freeSpace: int)
    requires Filed(lists) && 0 <= freeSpace && Bucket(freeSpace) < INTERVALS_NO
    ensures TakeFirstFrom(lists, Bucket(freeSpace) + 1).0.Some? ==>
      TakeFirstFrom(lists, Bucket(freeSpace) + 1).0.value.freeSpace >= (Bucket(freeSpace) + 1) * THRESHOLD > freeSpace
  {
    var from := Bucket(freeSpace) + 1;
    match FirstNonEmpty(lists, from)
    case None =>
    case Some(b) =>
      var found := lists[b][0].freeSpace;
      assert Bucket(found) == b;
      FitsAbove(found, freeSpace);
  }

  /** An amount filed in a higher bucket than a request's covers the request. */
  lemma FitsAbove(found: int, freeSpace: int)
    requires 0 <= freeSpace && Bucket(freeSpace) < Bucket(found)
    ensures found >= (Bucket(freeSpace) + 1) * THRESHOLD > freeSpace
  {
    BucketLowerBound(found);
    BucketUpperBound(freeSpace);
    ScaleByThreshold(Bucket(freeSpace) + 1, Bucket(found));
  }

  /** Bucket lower bounds grow with the bucket. */
  lemma ScaleByThreshold(lo: int, hi: int)
    requires lo <= hi
    ensures lo * THRESHOLD <= hi * THRESHOLD
  {
    assert THRESHOLD == 204;
  }

  /** Taking a fitting record out of the top bucket keeps the buckets filed and takes one. */
  lemma TopFittingProperties(lists: seq<seq<PageInfo>>, freeSpace: int)
    requires Filed(lists) && 0 <= freeSpace && Bucket(freeSpace) >= INTERVALS_NO
    ensures var (r, after) := SelectFittingImage(lists, freeSpace);
      && (r.Some? ==> r.value.freeSpace >= freeSpace)
      && Filed(after)
      && (r.None? ==> after == lists)
      && (r.Some? ==> Total(after) == Total(lists) - 1)
  {
    var top := lists[INTERVALS_NO];
    match FirstFitting(top, freeSpace, 0)
    case None =>
    case Some(j) =>
      var rest: seq<PageInfo> := top[..j] + top[j + 1..];
      var after: seq<seq<PageInfo>> := lists[INTERVALS_NO := rest];
      TotalUpdate(lists, INTERVALS_NO, rest);
      forall i, k | 0 <= i < |after| && 0 <= k < |after[i]|
        ensures Bucket(after[i][k].freeSpace) == i
      {
        if i == INTERVALS_NO {
          assert after[i][k] == if k < j then top[k] else top[k + 1];
        }
      }
  }

  /**
   * The intended `select` parts from the one as written exactly when a
   * request in the top bucket meets a top-bucket head without room for it;
   * everywhere else both return the same record and leave the same buckets.
   */
  lemma SelectFittingAgrees(lists: seq<seq<PageInfo>>, freeSpace: int)
    requires |lists| == INTERVALS_NO + 1 && 0 <= freeSpace && Bucket(freeSpace) <= INTERVALS_NO
    ensures SelectFittingImage(lists, freeSpace) == SelectImage(lists, freeSpace)
        <==> !(Bucket(freeSpace) == INTERVALS_NO && lists[INTERVALS_NO] != []
               && lists[INTERVALS_NO][0].freeSpace < freeSpace)
  {
    if Bucket(freeSpace) == INTERVALS_NO {
      var top := lists[INTERVALS_NO];
      if top == [] {
        assert FirstNonEmpty(lists, INTERVALS_NO) == None;
      } else {
        assert FirstNonEmpty(lists, INTERVALS_NO) == Some(INTERVALS_NO);
        if top[0].freeSpace >= freeSpace {
          assert FirstFitting(top, freeSpace, 0) == Some(0);
          assert top[..0] + top[1..] == top[1..];
        }
      }
    }
  }

  /**
   * A record in the top bucket with room for the request is always found:
   * a fresh page (8190 bytes free) serves every request up to its size.
   */
  lemma SelectFittingFindsTop(lists: seq<seq<PageInfo>>, freeSpace: int, k: nat)
    requires Filed(lists) && 0 <= freeSpace
    requires k < |lists[INTERVALS_NO]| && lists[INTERVALS_NO][k].freeSpace >= freeSpace
    ensures SelectFittingImage(lists, freeSpace).0.Some?
  {
    if Bucket(freeSpace) < INTERVALS_NO {
      assert FirstNonEmpty(lists, INTERVALS_NO).Some?;
      FirstNonEmptyFrom(lists, Bucket(freeSpace) + 1, INTERVALS_NO);
    }
  }

  /** A non-empty bucket at or after `from` is found by the scan from `from`. */
  lemma {:induction false} FirstNonEmptyFrom(lists: seq<seq<PageInfo>>, from: nat, b: nat)
    requires from <= b < |lists| && |lists[b]| > 0
    ensures FirstNonEmpty(lists, from).Some?
    decreases b - from
  {
    if |lists[from]| == 0 {
      FirstNonEmptyFrom(lists, from + 1, b);
    }
  }

  class PageIndex {
    const lists: array<seq<PageInfo>>

    ghost predicate Valid()
      reads this, lists
    {
      Filed(lists[..])
    }

    constructor ()
      ensures Valid() && fresh(lists)
      ensures forall i :: 0 <= i < lists.Length ==> lists[i] == []
    {
      lists := new seq<PageInfo>[INTERVALS_NO + 1](_ => []);
    }

    /** `add`: appends the record to the end of its bucket. */
    method Add(pageNo: int, freeSpace: int)
      requires Valid()
      requires 0 <= Bucket(freeSpace) <= INTERVALS_NO
      modifies lists
      ensures Valid()
      ensures lists[..] == AddImage(old(lists[..]), pageNo, freeSpace)
    {
      AddProperties(lists[..], pageNo, freeSpace);
      var number := Bucket(freeSpace);
      lists[number] := lists[number] + [PageInfo(pageNo, freeSpace)];
    }

    /** Scans upward from bucket `number` and removes the head of the first non-empty bucket. */
    method TakeFirst(number: nat) returns (r: Option<PageInfo>)
      requires Valid()
      modifies lists
      ensures Valid()
      ensures r == TakeFirstFrom(old(lists[..]), number).0
      ensures lists[..] == TakeFirstFrom(old(lists[..]), number).1
    {
      ghost var before := lists[..];
      ghost var start := number;
      var number := number;
      while number <= INTERVALS_NO
        invariant start <= number
        invariant number <= INTERVALS_NO + 1 || number == start
        invariant FirstNonEmpty(before, start) == FirstNonEmpty(before, number)
        invariant lists[..] == before
      {
        if |lists[number]| == 0 {
          number := number + 1;
          continue;
        }
        assert FirstNonEmpty(before, number) == Some(number);
        r := Some(lists[number][0]);
        lists[number] := lists[number][1..];
        assert lists[..] == before[number := before[number][1..]];
        TakeFirstProperties(before, start);
        return;
      }
      r := None;
      TakeFirstProperties(before, start);
    }

    /**
     * `select`: scans upward from the bucket above the request's (or from
     * the top bucket) and removes the head of the first non-empty bucket;
     * `None` when all of them are empty.
     */
    method Select(freeSpace: int) returns (r: Option<PageInfo>)
      requires Valid()
      requires StartBucket(freeSpace) >= 0
      modifies lists
      ensures Valid()
      ensures r == SelectImage(old(lists[..]), freeSpace).0
      ensures lists[..] == SelectImage(old(lists[..]), freeSpace).1
    {
      var number := Bucket(freeSpace);
      if number < INTERVALS_NO {
        number := number + 1;
      }
      r := TakeFirst(number);
    }

    /** `select` as intended: a returned record always has room for the request. */
    method SelectFitting(freeSpace: int) returns (r: Option<PageInfo>)
      requires Valid()
      requires 0 <= freeSpace
      modifies lists
      ensures Valid()
      ensures r == SelectFittingImage(old(lists[..]), freeSpace).0
      ensures lists[..] == SelectFittingImage(old(lists[..]), freeSpace).1
      ensures r.Some? ==> r.value.freeSpace >= freeSpace
    {
      SelectFittingFits(lists[..], freeSpace);
      var number := Bucket(freeSpace);
      if number < INTERVALS_NO {
        r := TakeFirst(number + 1);
        return;
      }
      var top := lists[INTERVALS_NO];
      var j := 0;
      while j < |top| && top[j].freeSpace < freeSpace
        invariant 0 <= j <= |top|
        invariant FirstFitting(top, freeSpace, 0) == FirstFitting(top, freeSpace, j)
      {
        j := j + 1;
      }
      if j == |top| {
        r := None;
        return;
      }
      r := Some(top[j]);
      lists[INTERVALS_NO] := top[..j] + top[j + 1..];
    }
  }
}
