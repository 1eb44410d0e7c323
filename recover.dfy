/**
 * Recovery at start-up (`Recover`). The log is read back from its first
 * record and parsed, the database file is cut to the largest page number
 * any record names (at least 1), the records of transactions that are no
 * longer active are redone in log order, and then the records of
 * transactions still active are undone, each transaction's records in
 * reverse log order.
 *
 * Each record's page is fetched, changed and released before the next
 * record is looked at, and nothing else holds pages while recovery runs, so
 * every change reaches the database file when its page is released: the
 * database file is the state of this module.
 */
module Recover {
  import opened Bytes
  import opened Outcomes
  import opened Pages
  import CommonPage
  import DataItem
  import opened LogRecords
  import Logger
  import PageCache
  import TransactionManager

  // ------------------------------------------------------ reading the log

  /** The info parsed last, if any. */
  function Last(infos: seq<LogInfo>): Option<LogInfo>
  {
    if infos == [] then None else Some(infos[|infos| - 1])
  }

  /**
   * One record as the recovery loops parse it, by its type byte. A record
   * of any other type leaves the previous record's info in place, and with
   * no previous record that is a null dereference; an empty record has no
   * type byte to read.
   */
  function ParseRecord(log: seq<Byte>, prev: Option<LogInfo>): (r: Result<LogInfo>)
    ensures r.Err? ==> r.error == Panic
  {
    if |log| == 0 then Err(Panic)
    else if log[OFFSET_TYPE] == LOG_TYPE_INSERT then ParseInsertLog(log)
    else if log[OFFSET_TYPE] == LOG_TYPE_UPDATE then ParseUpdateLog(log)
    else if prev.Some? then Ok(prev.value)
    else Err(Panic)
  }

  /** The records of a log, parsed in order, each with the one before it at hand. */
  function ParseRecords(logs: seq<seq<Byte>>): (r: Result<seq<LogInfo>>)
    ensures r.Ok? ==> |r.value| == |logs|
    ensures r.Err? ==> r.error == Panic
  {
    if logs == [] then Ok([])
    else
      match ParseRecords(logs[..|logs| - 1])
      case Err(e) => Err(e)
      case Ok(infos) =>
        match ParseRecord(logs[|logs| - 1], Last(infos))
        case Err(e) => Err(e)
        case Ok(info) => Ok(infos + [info])
  }

  /** Parsing one more record: the parse so far, then that record with the last info at hand. */
  lemma ParseRecordsSnoc(seen: seq<seq<Byte>>, p: seq<Byte>, infos: seq<LogInfo>)
    requires ParseRecords(seen) == Ok(infos)
    ensures ParseRecord(p, Last(infos)).Err? ==> ParseRecords(seen + [p]) == Err(Panic)
    ensures ParseRecord(p, Last(infos)).Ok? ==>
      ParseRecords(seen + [p]) == Ok(infos + [ParseRecord(p, Last(infos)).value])
  {
    assert (seen + [p])[..|seen|] == seen;
  }

  /** A record that parsing fails on fails every longer log. */
  lemma {:induction false} ParseRecordsExtendErr(a: seq<seq<Byte>>, b: seq<seq<Byte>>)
    requires ParseRecords(a).Err?
    ensures ParseRecords(a + b).Err?
    decreases |b|
  {
    if b != [] {
      var n := |b| - 1;
      assert (a + b)[..|a + b| - 1] == a + b[..n];
      ParseRecordsExtendErr(a, b[..n]);
    } else {
      assert a + b == a;
    }
  }

  /** A record `logInsert`/`logUpdate` can write so that it parses back. */
  predicate Encodable(info: LogInfo)
  {
    info.UpdateLog? ==> 0 <= info.pageNumber && 0 <= info.offset && |info.oldRaw| == |info.newRaw|
  }

  /** The log record `logInsert` or `logUpdate` writes for an info. */
  function EncodeRecord(info: LogInfo): seq<Byte>
    requires Encodable(info)
  {
    match info
    case InsertLog(xid, p, off, raw) => LogInsert(xid, p, off, raw)
    case UpdateLog(xid, p, off, oldRaw, newRaw) => LogUpdate(xid, AddressToUid(p, off), oldRaw, newRaw)
  }

  /** The records of a sequence of infos, in order. */
  function EncodeRecords(infos: seq<LogInfo>): (r: seq<seq<Byte>>)
    requires forall i :: 0 <= i < |infos| ==> Encodable(infos[i])
    ensures |r| == |infos|
  {
    if infos == [] then [] else EncodeRecords(infos[..|infos| - 1]) + [EncodeRecord(infos[|infos| - 1])]
  }

  /** A record the data manager writes parses back to its info, whatever came before it. */
  lemma ParseEncodedRecord(info: LogInfo, prev: Option<LogInfo>)
    requires Encodable(info)
    ensures ParseRecord(EncodeRecord(info), prev) == Ok(info)
  {
    match info
    case InsertLog(xid, p, off, raw) =>
      InsertRoundTrip(xid, p, off, raw);
      assert EncodeRecord(info)[OFFSET_TYPE] == LOG_TYPE_INSERT;
    case UpdateLog(xid, p, off, oldRaw, newRaw) =>
      UpdateRoundTrip(xid, p, off, oldRaw, newRaw);
      assert EncodeRecord(info)[OFFSET_TYPE] == LOG_TYPE_UPDATE;
  }

  /** The recovery loops parse back every sequence of records the data manager writes. */
  lemma {:induction false} ParseEncodedRecords(infos: seq<LogInfo>)
    requires forall i :: 0 <= i < |infos| ==> Encodable(infos[i])
    ensures ParseRecords(EncodeRecords(infos)) == Ok(infos)
  {
    if infos != [] {
      var n := |infos| - 1;
      var front := infos[..n];
      assert front + [infos[n]] == infos;
      assert forall i :: 0 <= i < n ==> Encodable(front[i]);
      assert EncodeRecords(infos) == EncodeRecords(front) + [EncodeRecord(infos[n])];
      ParseEncodedRecords(front);
      ParseEncodedRecord(infos[n], Last(front));
      ParseRecordsSnoc(EncodeRecords(front), EncodeRecord(infos[n]), front);
    }
  }

  /** What one pass of the recovery loops reads: every well-formed record from the first, parsed. */
  function ParsedLog(file: seq<Byte>, fileSize: int): (r: Result<seq<LogInfo>>)
    ensures r.Err? ==> r.error == Panic
  {
    ParsedScan(Logger.ScanFrom(file, Logger.OFFSET_X_CHECKSUM_LEN, fileSize))
  }

  /** The payloads of a scan, parsed. */
  function ParsedScan(scan: Result<Logger.Scan>): (r: Result<seq<LogInfo>>)
    ensures r.Err? ==> r.error == Panic
  {
    match scan
    case Err(_) => Err(Panic)
    case Ok(s) => ParseRecords(s.payloads)
  }

  /** Payloads that fail to parse make the whole scan fail, whatever follows them. */
  lemma ParsedScanPrependErr(seen: seq<seq<Byte>>, rest: Result<Logger.Scan>)
    requires ParseRecords(seen).Err?
    ensures ParsedScan(Logger.Prepend(seen, rest)) == Err(Panic)
  {
    match rest
    case Err(_) =>
    case Ok(s) => ParseRecordsExtendErr(seen, s.payloads);
  }

  /** Payloads that parse, followed by a scan that ends, parse as themselves. */
  lemma ParsedScanPrependEnd(seen: seq<seq<Byte>>, pos: nat)
    ensures ParsedScan(Logger.Prepend(seen, Ok(Logger.Scan(pos, [])))) == ParseRecords(seen)
  {
    assert seen + [] == seen;
  }

  /** A log holding the records of some infos is read back as exactly those infos. */
  lemma RecoverReadsLogged(infos: seq<LogInfo>)
    requires forall i :: 0 <= i < |infos| ==> Encodable(infos[i])
    requires forall i :: 0 <= i < |infos| ==> |EncodeRecords(infos)[i]| <= Logger.MAX_DATA
    ensures var f := Logger.LogImage(EncodeRecords(infos)); ParsedLog(f, |f|) == Ok(infos)
  {
    Logger.ReopenReadsLogged(EncodeRecords(infos));
    ParseEncodedRecords(infos);
  }

  /** One pass over the log: `rewind`, then `next` until it returns null, parsing as it goes. */
  method ReadRecords(lg: Logger.LogFile) returns (r: Result<seq<LogInfo>>)
    modifies lg`position
    ensures r == ParsedLog(lg.file, lg.fileSize)
    ensures lg.position >= Logger.OFFSET_X_CHECKSUM_LEN
  {
    lg.Rewind();
    ghost var file, fileSize := lg.file, lg.fileSize;
    ghost var seen: seq<seq<Byte>> := [];
    var infos: seq<LogInfo> := [];
    Logger.ScannedToStart(file, fileSize);
    while true
      invariant lg.file == file && lg.fileSize == fileSize
      invariant lg.position >= Logger.OFFSET_X_CHECKSUM_LEN
      invariant Logger.ScannedTo(file, fileSize, seen, lg.position)
      invariant ParseRecords(seen) == Ok(infos)
      decreases Max(0, fileSize - lg.position)
    {
      ghost var at := lg.position;
      var next := lg.Next();
      ReadStops(file, fileSize, seen, infos, at);
      if next.Err? {
        return Err(Panic);
      }
      if next.value.None? {
        return Ok(infos);
      }
      var p := next.value.value;
      var info := ParseRecord(p, Last(infos));
      assert Logger.FrameAt(file, at, fileSize).Record?;
      ghost var log := Logger.FrameAt(file, at, fileSize).log;
      ReadAdvances(file, fileSize, seen, infos, at, log, p, lg.position);
      if info.Err? {
        return Err(Panic);
      }
      seen := seen + [p];
      infos := infos + [info.value];
    }
  }

  /** Where `next` meets no record the pass is over, and where it meets a fault the pass fails. */
  lemma ReadStops(file: seq<Byte>, fileSize: int, seen: seq<seq<Byte>>, infos: seq<LogInfo>, at: nat)
    requires Logger.ScannedTo(file, fileSize, seen, at) && ParseRecords(seen) == Ok(infos)
    ensures Logger.FrameAt(file, at, fileSize).End? ==> ParsedLog(file, fileSize) == Ok(infos)
    ensures Logger.FrameAt(file, at, fileSize).Fault? ==> ParsedLog(file, fileSize) == Err(Panic)
  {
    Logger.ScanStops(file, fileSize, seen, at);
  }

  /**
   * Where `next` meets a record, a payload that does not parse fails the
   * pass, and one that parses is read and parsed on top of the rest.
   */
  lemma ReadAdvances(file: seq<Byte>, fileSize: int, seen: seq<seq<Byte>>, infos: seq<LogInfo>,
                      at: nat, log: seq<Byte>, p: seq<Byte>, next: nat)
    requires Logger.ScannedTo(file, fileSize, seen, at) && ParseRecords(seen) == Ok(infos)
    requires Logger.FrameAt(file, at, fileSize) == Logger.Record(log)
    requires p == log[Logger.OFFSET_DATA..] && next == at + |log|
    ensures ParseRecord(p, Last(infos)).Err? ==> ParsedLog(file, fileSize) == Err(Panic)
    ensures ParseRecord(p, Last(infos)).Ok? ==>
      && Logger.ScannedTo(file, fileSize, seen + [p], next)
      && ParseRecords(seen + [p]) == Ok(infos + [ParseRecord(p, Last(infos)).value])
  {
    Logger.ScanAdvances(file, fileSize, seen, at, log, p, next);
    ParseRecordsSnoc(seen, p, infos);
    if ParseRecord(p, Last(infos)).Err? {
      ParsedScanPrependErr(seen + [p], Logger.ScanFrom(file, next, fileSize));
      assert ParsedLog(file, fileSize) == ParsedScan(Logger.Prepend(seen + [p], Logger.ScanFrom(file, next, fileSize)));
    }
  }

  // ------------------------------------------------------------ truncation

  /** `maxPageNo` of `recover`: from 0, raised to any larger page number a record names. */
  function MaxPageNo(infos: seq<LogInfo>): (m: int)
    ensures m >= 0
  {
    if infos == [] then 0
    else
      var m := MaxPageNo(infos[..|infos| - 1]);
      if infos[|infos| - 1].pageNumber > m then infos[|infos| - 1].pageNumber else m
  }

  /** No record names a page above the maximum, which is 0 or a page some record names. */
  lemma {:induction false} MaxPageNoBounds(infos: seq<LogInfo>)
    ensures MaxPageNo(infos) < TWO_31
    ensures forall i :: 0 <= i < |infos| ==> infos[i].pageNumber <= MaxPageNo(infos)
    ensures MaxPageNo(infos) == 0 || exists i :: 0 <= i < |infos| && infos[i].pageNumber == MaxPageNo(infos)
  {
    if infos != [] {
      var n := |infos| - 1;
      MaxPageNoBounds(infos[..n]);
      assert forall i :: 0 <= i < n ==> infos[i] == infos[..n][i];
    }
  }

  /** The page count the file is cut to: the maximum, or 1 when no record names a positive page. */
  function TruncateTarget(infos: seq<LogInfo>): nat
  {
    var m := MaxPageNo(infos);
    if m == 0 then 1 else m
  }

  /** The loop of `recover` that finds the largest page number. */
  method MaxPageNumber(infos: seq<LogInfo>) returns (m: int)
    ensures m == MaxPageNo(infos)
  {
    m := 0;
    var i := 0;
    while i < |infos|
      invariant 0 <= i <= |infos|
      invariant m == MaxPageNo(infos[..i])
    {
      assert infos[..i + 1][..i] == infos[..i];
      if infos[i].pageNumber > m {
        m := infos[i].pageNumber;
      }
      i := i + 1;
    }
    assert infos[..i] == infos;
  }

  // ---------------------------------------------------- sorting the records

  /** `isActive(xid)` on the status file; a slot before the file's start cannot be read. */
  function ActiveIn(xids: seq<Byte>, xid: I64): Result<bool>
  {
    if TransactionManager.XidPosition(xid) < 0 then Err(Panic)
    else Ok(TransactionManager.StatusByte(xids, xid) == TransactionManager.FIELD_TRAN_ACTIVE)
  }

  /** The list `redoTransactions` collects: the records of xids not active, in log order. */
  function RedoList(xids: seq<Byte>, infos: seq<LogInfo>): (r: Result<seq<LogInfo>>)
    ensures r.Err? ==> r.error == Panic
  {
    if infos == [] then Ok([])
    else
      match RedoList(xids, infos[..|infos| - 1])
      case Err(e) => Err(e)
      case Ok(l) =>
        var info := infos[|infos| - 1];
        match ActiveIn(xids, info.xid)
        case Err(e) => Err(e)
        case Ok(active) => Ok(if active then l else l + [info])
  }

  /** The records `undoTransactions` collects: those of active xids, in log order. */
  function ActiveList(xids: seq<Byte>, infos: seq<LogInfo>): (r: Result<seq<LogInfo>>)
    ensures r.Err? ==> r.error == Panic
  {
    if infos == [] then Ok([])
    else
      match ActiveList(xids, infos[..|infos| - 1])
      case Err(e) => Err(e)
      case Ok(l) =>
        var info := infos[|infos| - 1];
        match ActiveIn(xids, info.xid)
        case Err(e) => Err(e)
        case Ok(active) => Ok(if active then l + [info] else l)
  }

  /**
   * The two passes split the log: both succeed exactly when every record's
   * status can be read, and then every record goes to exactly one of them,
   * redo taking the inactive ones and undo the active ones.
   */
  lemma StatusSplit(xids: seq<Byte>, infos: seq<LogInfo>)
    ensures RedoList(xids, infos).Ok? <==> ActiveList(xids, infos).Ok?
    ensures RedoList(xids, infos).Ok? <==>
      forall i :: 0 <= i < |infos| ==> TransactionManager.XidPosition(infos[i].xid) >= 0
    ensures RedoList(xids, infos).Ok? ==>
      multiset(RedoList(xids, infos).value) + multiset(ActiveList(xids, infos).value) == multiset(infos)
    ensures RedoList(xids, infos).Ok? ==>
      && (forall info :: info in RedoList(xids, infos).value ==> ActiveIn(xids, info.xid) == Ok(false))
      && (forall info :: info in ActiveList(xids, infos).value ==> ActiveIn(xids, info.xid) == Ok(true))
  {
    StatusReadable(xids, infos);
    if RedoList(xids, infos).Ok? {
      StatusPartition(xids, infos);
      StatusSorted(xids, infos);
    }
  }

  /** Both lists are built exactly when every record's status slot can be read. */
  lemma {:induction false} StatusReadable(xids: seq<Byte>, infos: seq<LogInfo>)
    ensures RedoList(xids, infos).Ok? <==> ActiveList(xids, infos).Ok?
    ensures RedoList(xids, infos).Ok? <==>
      forall i :: 0 <= i < |infos| ==> TransactionManager.XidPosition(infos[i].xid) >= 0
  {
    if infos != [] {
      var n := |infos| - 1;
      StatusReadable(xids, infos[..n]);
      assert forall i :: 0 <= i < n ==> infos[i] == infos[..n][i];
    }
  }

  /** Every record goes to exactly one of the lists. */
  lemma {:induction false} StatusPartition(xids: seq<Byte>, infos: seq<LogInfo>)
    requires RedoList(xids, infos).Ok? && ActiveList(xids, infos).Ok?
    ensures multiset(RedoList(xids, infos).value) + multiset(ActiveList(xids, infos).value) == multiset(infos)
  {
    if infos != [] {
      var n := |infos| - 1;
      var front := infos[..n];
      assert infos == front + [infos[n]];
      assert multiset(infos) == multiset(front) + multiset{infos[n]};
      StatusPartition(xids, front);
      var info := infos[n];
      var redo, active := RedoList(xids, front).value, ActiveList(xids, front).value;
      if ActiveIn(xids, info.xid) == Ok(true) {
        assert RedoList(xids, infos) == Ok(redo);
        assert ActiveList(xids, infos) == Ok(active + [info]);
      } else {
        assert RedoList(xids, infos) == Ok(redo + [info]);
        assert ActiveList(xids, infos) == Ok(active);
      }
    }
  }

  /** Redo takes only records of inactive xids and undo only those of active ones. */
  lemma {:induction false} StatusSorted(xids: seq<Byte>, infos: seq<LogInfo>)
    requires RedoList(xids, infos).Ok? && ActiveList(xids, infos).Ok?
    ensures forall info :: info in RedoList(xids, infos).value ==> ActiveIn(xids, info.xid) == Ok(false)
    ensures forall info :: info in ActiveList(xids, infos).value ==> ActiveIn(xids, info.xid) == Ok(true)
  {
    if infos != [] {
      StatusSorted(xids, infos[..|infos| - 1]);
    }
  }

  /** `xidToLogRaw`: the active records grouped by xid, each group in log order. */
  function Groups(active: seq<LogInfo>): map<I64, seq<LogInfo>>
  {
    if active == [] then map[]
    else
      var g := Groups(active[..|active| - 1]);
      var info := active[|active| - 1];
      g[info.xid := (if info.xid in g then g[info.xid] else []) + [info]]
  }

  /** The records of one xid, in order. */
  function OfXid(s: seq<LogInfo>, xid: I64): seq<LogInfo>
  {
    if s == [] then []
    else OfXid(s[..|s| - 1], xid) + (if s[|s| - 1].xid == xid then [s[|s| - 1]] else [])
  }

  /** `OfXid` keeps exactly the records of its xid. */
  lemma {:induction false} OfXidMembers(s: seq<LogInfo>, xid: I64, info: LogInfo)
    ensures info in OfXid(s, xid) <==> info in s && info.xid == xid
  {
    if s != [] {
      var n := |s| - 1;
      OfXidMembers(s[..n], xid, info);
      assert s == s[..n] + [s[n]];
    }
  }

  /** A group is there exactly for an xid with records, and holds that xid's records in log order. */
  lemma {:induction false} GroupsByXid(active: seq<LogInfo>)
    ensures forall xid :: xid in Groups(active) <==> OfXid(active, xid) != []
    ensures forall xid :: xid in Groups(active) ==> Groups(active)[xid] == OfXid(active, xid)
  {
    if active != [] {
      GroupsByXid(active[..|active| - 1]);
    }
  }

  /** A sequence backwards. */
  function Reverse(s: seq<LogInfo>): (r: seq<LogInfo>)
    ensures |r| == |s|
    ensures forall i :: 0 <= i < |s| ==> r[i] == s[|s| - 1 - i]
    ensures multiset(r) == multiset(s)
  {
    if s == [] then []
    else
      var rest := Reverse(s[..|s| - 1]);
      assert s == s[..|s| - 1] + [s[|s| - 1]];
      [s[|s| - 1]] + rest
  }

  /** Reversing one more element of a prefix puts it in front. */
  lemma ReverseStep(g: seq<LogInfo>, i: nat, rest: seq<LogInfo>)
    requires i < |g|
    ensures Reverse(g[..i + 1]) + rest == [g[i]] + (Reverse(g[..i]) + rest)
  {
    assert g[..i + 1][..i] == g[..i];
  }

  /** What the undo pass replays: group by group in the map's order, each group backwards. */
  function UndoList(groups: map<I64, seq<LogInfo>>, order: seq<I64>): seq<LogInfo>
  {
    if order == [] then []
    else (if order[0] in groups then Reverse(groups[order[0]]) else []) + UndoList(groups, order[1..])
  }

  /** The undo pass replays an active record exactly when the order lists its xid. */
  lemma {:induction false} UndoListMembers(active: seq<LogInfo>, order: seq<I64>, info: LogInfo)
    ensures info in UndoList(Groups(active), order) <==> info in active && info.xid in order
  {
    if order != [] {
      UndoListSplit(Groups(active), order, info);
      UndoListMembers(active, order[1..], info);
      GroupMembers(active, order[0], info);
      InOrderSplit(order, info.xid);
    }
  }

  /** A record is undone in the first group of the order or in the groups after it. */
  lemma UndoListSplit(g: map<I64, seq<LogInfo>>, order: seq<I64>, info: LogInfo)
    requires order != []
    ensures info in UndoList(g, order) <==>
      info in (if order[0] in g then Reverse(g[order[0]]) else []) || info in UndoList(g, order[1..])
  {
  }

  /** An xid is in the order when it is first or in the rest. */
  lemma InOrderSplit(order: seq<I64>, xid: I64)
    requires order != []
    ensures xid in order <==> xid == order[0] || xid in order[1..]
  {
    assert order == [order[0]] + order[1..];
  }

  /** The group of an xid, backwards, holds exactly the active records of that xid. */
  lemma GroupMembers(active: seq<LogInfo>, xid: I64, info: LogInfo)
    ensures info in (if xid in Groups(active) then Reverse(Groups(active)[xid]) else []) <==>
      info in active && info.xid == xid
  {
    var g := Groups(active);
    GroupsByXid(active);
    OfXidMembers(active, xid, info);
    if xid in g {
      assert multiset(Reverse(g[xid])) == multiset(g[xid]);
      assert info in Reverse(g[xid]) <==> info in multiset(Reverse(g[xid]));
      assert info in g[xid] <==> info in multiset(g[xid]);
    }
  }

  /** When the order lists every group, the undo pass replays exactly the active records. */
  lemma UndoCoversActive(active: seq<LogInfo>, order: seq<I64>, info: LogInfo)
    requires forall xid :: xid in Groups(active) ==> xid in order
    ensures info in UndoList(Groups(active), order) <==> info in active
  {
    UndoListMembers(active, order, info);
    GroupsByXid(active);
    OfXidMembers(active, info.xid, info);
  }

  // ------------------------------------------------------- replaying records

  datatype Pass = Redo | Undo

  /**
   * The bytes a record writes into its page: an insert's record on redo
   * and, flagged invalid, on undo; an update's new image on redo and its
   * old image on undo.
   */
  function Image(info: LogInfo, pass: Pass): seq<Byte>
  {
    match info
    case InsertLog(_, _, _, raw) =>
      if pass == Redo || |raw| == 0 then raw else raw[DataItem.OFFSET_VALID := 1]
    case UpdateLog(_, _, _, oldRaw, newRaw) => if pass == Redo then newRaw else oldRaw
  }

  /** The page number is one a page can have and the image fits the page at the offset. */
  predicate Applicable(info: LogInfo, pass: Pass)
  {
    && info.pageNumber >= 1
    && !(info.InsertLog? && pass == Undo && |info.raw| == 0)
    && 0 <= info.offset && info.offset + |Image(info, pass)| <= PAGE_SIZE
  }

  /**
   * `doInsertLog`/`doUpdateLog` on the database file: the record's page is
   * read, an insert goes through `recoverInsert` and an update through
   * `recoverUpdate`, and the page is written back. A page number below 1,
   * an empty record to undo or an image outside the page makes Java throw.
   */
  function Step(file: seq<Byte>, info: LogInfo, pass: Pass): (r: Result<seq<Byte>>)
    ensures r.Ok? <==> Applicable(info, pass)
    ensures r.Err? ==> r.error == Panic
  {
    if !Applicable(info, pass) then Err(Panic)
    else
      var p := info.pageNumber;
      var page := PageCache.ReadPage(file, p);
      var img := Image(info, pass);
      var changed :=
        if info.InsertLog? then CommonPage.RecoverInsertImage(page, img, info.offset)
        else CommonPage.Overwrite(page, info.offset, img);
      Ok(WriteAt(file, PageCache.PageOffset(p), changed))
  }

  /**
   * `doInsertLog` as written for undo: the valid flag is set in the parsed
   * copy of the record, and the page is fetched and released unchanged.
   */
  function StepAsWritten(file: seq<Byte>, info: LogInfo, pass: Pass): Result<seq<Byte>>
  {
    if info.InsertLog? && pass == Undo then
      if info.pageNumber < 1 || |info.raw| == 0 then Err(Panic) else Ok(file)
    else Step(file, info, pass)
  }

  /** Replaying a record and then more: the record's step, then the rest from where it left the file. */
  lemma ReplayCons(file: seq<Byte>, info: LogInfo, rest: seq<LogInfo>, pass: Pass)
    ensures Step(file, info, pass).Err? ==> Replay(file, [info] + rest, pass).Err?
    ensures Step(file, info, pass).Ok? ==>
      Replay(file, [info] + rest, pass) == Replay(Step(file, info, pass).value, rest, pass)
  {
    assert ([info] + rest)[0] == info && ([info] + rest)[1..] == rest;
  }

  /** Records replayed one after the other; the first failure stops the pass. */
  function Replay(file: seq<Byte>, list: seq<LogInfo>, pass: Pass): (r: Result<seq<Byte>>)
    decreases |list|
    ensures r.Err? ==> r.error == Panic
  {
    if list == [] then Ok(file)
    else
      match Step(file, list[0], pass)
      case Err(e) => Err(e)
      case Ok(f) => Replay(f, list[1..], pass)
  }

  /**
   * `recover`: read the log, cut the file to `TruncateTarget` pages, redo
   * the inactive records in log order and then undo the active ones group by
   * group; `order` is the order in which the map of groups is iterated.
   */
  function RecoverImage(xids: seq<Byte>, log: seq<Byte>, logSize: int, db: seq<Byte>, order: seq<I64>): Result<seq<Byte>>
  {
    match ParsedLog(log, logSize)
    case Err(e) => Err(e)
    case Ok(infos) =>
      var m := TruncateTarget(infos);
      if m + 1 >= TWO_31 then Err(Panic)
      else
        var t := PageCache.TruncateImage(db, m);
        match RedoList(xids, infos)
        case Err(e) => Err(e)
        case Ok(redo) =>
          match Replay(t, redo, Redo)
          case Err(e) => Err(e)
          case Ok(f) =>
            match ActiveList(xids, infos)
            case Err(e) => Err(e)
            case Ok(active) => Replay(f, UndoList(Groups(active), order), Undo)
  }

  /** Records replayed one after the other with the steps as written. */
  function ReplayAsWritten(file: seq<Byte>, list: seq<LogInfo>, pass: Pass): (r: Result<seq<Byte>>)
    decreases |list|
    ensures r.Err? ==> r.error == Panic
  {
    if list == [] then Ok(file)
    else
      match StepAsWritten(file, list[0], pass)
      case Err(e) => Err(e)
      case Ok(f) => ReplayAsWritten(f, list[1..], pass)
  }

  /**
   * The replay as written and the corrected one part only on undone
   * inserts: a redo pass, or an undo pass over updates alone, is the same.
   */
  lemma {:induction false} ReplayAgrees(file: seq<Byte>, list: seq<LogInfo>, pass: Pass)
    requires pass == Redo || forall i :: 0 <= i < |list| ==> !list[i].InsertLog?
    ensures ReplayAsWritten(file, list, pass) == Replay(file, list, pass)
    decreases |list|
  {
    if list != [] {
      match Step(file, list[0], pass)
      case Err(_) =>
      case Ok(f) =>
        assert forall i :: 0 <= i < |list[1..]| ==> list[1..][i] == list[i + 1];
        ReplayAgrees(f, list[1..], pass);
    }
  }

  /** The undo pass as written and the corrected one agree on a log whose active records are all updates. */
  lemma UndoAgrees(file: seq<Byte>, active: seq<LogInfo>, order: seq<I64>)
    requires forall info :: info in active ==> !info.InsertLog?
    ensures ReplayAsWritten(file, UndoList(Groups(active), order), Undo) == Replay(file, UndoList(Groups(active), order), Undo)
  {
    var list := UndoList(Groups(active), order);
    forall i | 0 <= i < |list|
      ensures !list[i].InsertLog?
    {
      UndoListMembers(active, order, list[i]);
    }
    ReplayAgrees(file, list, Undo);
  }

  // ------------------------------------------------- what a step does to pages

  /** Writing the same span twice leaves the second write. */
  lemma WriteAtTwice(file: seq<Byte>, pos: nat, a: seq<Byte>, b: seq<Byte>)
    requires |a| == |b|
    ensures WriteAt(WriteAt(file, pos, a), pos, b) == WriteAt(file, pos, b)
  {
    var l := WriteAt(WriteAt(file, pos, a), pos, b);
    var r := WriteAt(file, pos, b);
    assert |l| == |r|;
    forall i | 0 <= i < |l|
      ensures l[i] == r[i]
    {
      if pos <= i < pos + |b| {
        assert l[i] == l[pos..pos + |b|][i - pos];
        assert r[i] == r[pos..pos + |b|][i - pos];
      }
    }
  }

  /** Writing back a page's own bytes changes nothing. */
  lemma WriteBackUnchanged(file: seq<Byte>, no: int)
    requires no >= 1 && PageCache.PageOffset(no) + PAGE_SIZE <= |file|
    ensures WriteAt(file, PageCache.PageOffset(no), PageCache.ReadPage(file, no)) == file
  {
    var off := PageCache.PageOffset(no);
    PageCache.ReadPageWithinFile(file, no);
    var w := WriteAt(file, off, PageCache.ReadPage(file, no));
    forall i | 0 <= i < |w|
      ensures w[i] == file[i]
    {
      if off <= i < off + PAGE_SIZE {
        assert w[i] == w[off..off + PAGE_SIZE][i - off];
        assert file[i] == file[off..off + PAGE_SIZE][i - off];
      }
    }
  }

  /** A step leaves every page of the file other than its own as it was. */
  lemma StepKeepsOtherPages(file: seq<Byte>, info: LogInfo, pass: Pass, q: int)
    requires Applicable(info, pass)
    requires q >= 1 && q != info.pageNumber && PageCache.PageOffset(q) + PAGE_SIZE <= |file|
    ensures PageCache.ReadPage(Step(file, info, pass).value, q) == PageCache.ReadPage(file, q)
  {
    var p := info.pageNumber;
    var page := PageCache.ReadPage(file, p);
    var img := Image(info, pass);
    var changed :=
      if info.InsertLog? then CommonPage.RecoverInsertImage(page, img, info.offset)
      else CommonPage.Overwrite(page, info.offset, img);
    PageCache.WritePageKeepsOthers(file, p, changed, q);
  }

  /**
   * A step writes its image at its offset in its page (an insert that
   * starts past the page header, where `recoverInsert` cannot overwrite it
   * with the free offset).
   */
  lemma StepWritesImage(file: seq<Byte>, info: LogInfo, pass: Pass)
    requires Applicable(info, pass)
    requires info.InsertLog? ==> info.offset >= CommonPage.OFFSET_DATA
    ensures PageCache.ReadPage(Step(file, info, pass).value, info.pageNumber)[info.offset..info.offset + |Image(info, pass)|]
         == Image(info, pass)
  {
    var p := info.pageNumber;
    var page := PageCache.ReadPage(file, p);
    var img := Image(info, pass);
    var changed :=
      if info.InsertLog? then CommonPage.RecoverInsertImage(page, img, info.offset)
      else CommonPage.Overwrite(page, info.offset, img);
    if info.InsertLog? {
      CommonPage.RecoverInsertProperties(page, img, info.offset);
    }
    PageCache.WriteThenReadPage(file, p, changed);
  }

  /** Redoing a record twice leaves the file as redoing it once, for records past the page header. */
  lemma RedoIdempotent(file: seq<Byte>, info: LogInfo)
    requires Applicable(info, Redo) && info.offset >= CommonPage.OFFSET_DATA
    ensures Step(Step(file, info, Redo).value, info, Redo) == Step(file, info, Redo)
  {
    var p := info.pageNumber;
    var off := PageCache.PageOffset(p);
    var page := PageCache.ReadPage(file, p);
    var img := Image(info, Redo);
    var changed :=
      if info.InsertLog? then CommonPage.RecoverInsertImage(page, img, info.offset)
      else CommonPage.Overwrite(page, info.offset, img);
    var f := WriteAt(file, off, changed);
    PageCache.WriteThenReadPage(file, p, changed);
    assert PageCache.ReadPage(f, p) == changed;
    if info.InsertLog? {
      CommonPage.RecoverInsertIdempotent(page, img, info.offset);
    } else {
      assert CommonPage.Overwrite(changed, info.offset, img) == changed;
    }
    WriteAtTwice(file, off, changed, changed);
  }

  /**
   * Undoing an update redone over the bytes it had replaced gives back the
   * file: `unBefore`'s guarantee, as recovery replays it.
   */
  lemma UpdateUndoRestores(file: seq<Byte>, info: LogInfo)
    requires info.UpdateLog? && Applicable(info, Redo) && |info.oldRaw| == |info.newRaw|
    requires PageCache.PageOffset(info.pageNumber) + PAGE_SIZE <= |file|
    requires PageCache.ReadPage(file, info.pageNumber)[info.offset..info.offset + |info.oldRaw|] == info.oldRaw
    ensures Step(file, info, Redo).Ok? && Step(Step(file, info, Redo).value, info, Undo) == Ok(file)
  {
    var p := info.pageNumber;
    var off := PageCache.PageOffset(p);
    var page := PageCache.ReadPage(file, p);
    var changed := CommonPage.Overwrite(page, info.offset, info.newRaw);
    var f := WriteAt(file, off, changed);
    PageCache.WriteThenReadPage(file, p, changed);
    var back := CommonPage.Overwrite(changed, info.offset, info.oldRaw);
    assert back == page by {
      assert page == page[..info.offset] + info.oldRaw + page[info.offset + |info.oldRaw|..];
    }
    WriteAtTwice(file, off, changed, page);
    WriteBackUnchanged(file, p);
  }

  /**
   * As written, undoing an insert leaves the file as it was: a record the
   * crashed transaction inserted, and whose page reached the file, is still
   * flagged valid after recovery.
   */
  lemma UndoInsertKeepsRecordValid(file: seq<Byte>, info: LogInfo)
    requires info.InsertLog? && Applicable(info, Undo)
    requires DataItem.IsValidRaw(PageCache.ReadPage(file, info.pageNumber)[info.offset..])
    ensures StepAsWritten(file, info, Undo) == Ok(file)
    ensures DataItem.IsValidRaw(PageCache.ReadPage(StepAsWritten(file, info, Undo).value, info.pageNumber)[info.offset..])
  {
  }

  /** Undoing an insert as intended leaves the record in its page flagged invalid, its other bytes as logged. */
  lemma UndoInsertInvalidates(file: seq<Byte>, info: LogInfo)
    requires info.InsertLog? && Applicable(info, Undo) && info.offset >= CommonPage.OFFSET_DATA
    ensures var page := PageCache.ReadPage(Step(file, info, Undo).value, info.pageNumber);
      && !DataItem.IsValidRaw(page[info.offset..])
      && page[info.offset + 1..info.offset + |info.raw|] == info.raw[1..]
  {
    StepWritesImage(file, info, Undo);
    var page := PageCache.ReadPage(Step(file, info, Undo).value, info.pageNumber);
    var img := Image(info, Undo);
    assert page[info.offset..][0] == page[info.offset..info.offset + |img|][0];
    assert page[info.offset + 1..info.offset + |img|] == page[info.offset..info.offset + |img|][1..];
  }

  // ----------------------------------------------------- the recovered file

  /** Replaying records whose pages lie in the file keeps the file's length. */
  lemma {:induction false} ReplayKeepsLength(file: seq<Byte>, list: seq<LogInfo>, pass: Pass)
    requires forall i :: 0 <= i < |list| ==> PageCache.PageOffset(list[i].pageNumber) + PAGE_SIZE <= |file|
    requires Replay(file, list, pass).Ok?
    ensures |Replay(file, list, pass).value| == |file|
    decreases |list|
  {
    if list != [] {
      var f := Step(file, list[0], pass).value;
      assert |f| == |file|;
      assert forall i :: 0 <= i < |list[1..]| ==> list[1..][i] == list[i + 1];
      ReplayKeepsLength(f, list[1..], pass);
    }
  }

  /** Replaying leaves every page in the file that no replayed record names as it was. */
  lemma {:induction false} ReplayKeepsOtherPages(file: seq<Byte>, list: seq<LogInfo>, pass: Pass, q: int)
    requires q >= 1 && PageCache.PageOffset(q) + PAGE_SIZE <= |file|
    requires forall i :: 0 <= i < |list| ==> list[i].pageNumber != q
    requires Replay(file, list, pass).Ok?
    ensures PageCache.ReadPage(Replay(file, list, pass).value, q) == PageCache.ReadPage(file, q)
    decreases |list|
  {
    if list != [] {
      StepKeepsOtherPages(file, list[0], pass, q);
      var f := Step(file, list[0], pass).value;
      assert forall i :: 0 <= i < |list[1..]| ==> list[1..][i] == list[i + 1];
      ReplayKeepsOtherPages(f, list[1..], pass, q);
    }
  }

  /**
   * After recovery the file holds exactly the truncation target's pages, and
   * a page up to it that no record names reads as it did before recovery.
   */
  lemma RecoverFileShape(xids: seq<Byte>, log: seq<Byte>, logSize: int, db: seq<Byte>, order: seq<I64>, q: int)
    requires RecoverImage(xids, log, logSize, db, order).Ok?
    ensures ParsedLog(log, logSize).Ok?
    ensures var infos := ParsedLog(log, logSize).value;
      |RecoverImage(xids, log, logSize, db, order).value| == TruncateTarget(infos) * PAGE_SIZE
    ensures var infos := ParsedLog(log, logSize).value;
      1 <= q <= TruncateTarget(infos) && (forall i :: 0 <= i < |infos| ==> infos[i].pageNumber != q) ==>
        PageCache.ReadPage(RecoverImage(xids, log, logSize, db, order).value, q) == PageCache.ReadPage(db, q)
  {
    var infos := ParsedLog(log, logSize).value;
    var m := TruncateTarget(infos);
    var t := PageCache.TruncateImage(db, m);
    ReplayedFromLog(xids, infos, order);
    var redo := RedoList(xids, infos).value;
    var undo := UndoList(Groups(ActiveList(xids, infos).value), order);
    ReplayShape(t, redo, Redo, infos, q);
    var f := Replay(t, redo, Redo).value;
    ReplayShape(f, undo, Undo, infos, q);
    if 1 <= q <= m {
      PageCache.TruncateKeepsPages(db, m, q);
    }
  }

  /**
   * Replaying records of the log on a file cut to the truncation target
   * keeps its length, and leaves alone every page in range that no record
   * of the log names.
   */
  lemma ReplayShape(file: seq<Byte>, list: seq<LogInfo>, pass: Pass, infos: seq<LogInfo>, q: int)
    requires |file| == TruncateTarget(infos) * PAGE_SIZE
    requires forall info :: info in list ==> info in infos
    requires Replay(file, list, pass).Ok?
    ensures |Replay(file, list, pass).value| == |file|
    ensures 1 <= q <= TruncateTarget(infos) && (forall i :: 0 <= i < |infos| ==> infos[i].pageNumber != q) ==>
      PageCache.ReadPage(Replay(file, list, pass).value, q) == PageCache.ReadPage(file, q)
  {
    var m := TruncateTarget(infos);
    MaxPageNoBounds(infos);
    forall i | 0 <= i < |list|
      ensures PageCache.PageOffset(list[i].pageNumber) + PAGE_SIZE <= |file|
    {
      assert list[i] in list;
    }
    ReplayKeepsLength(file, list, pass);
    if 1 <= q <= m && (forall i :: 0 <= i < |infos| ==> infos[i].pageNumber != q) {
      forall i | 0 <= i < |list|
        ensures list[i].pageNumber != q
      {
        assert list[i] in list;
      }
      ReplayKeepsOtherPages(file, list, pass, q);
    }
  }

  /** Both passes replay only records of the log. */
  lemma ReplayedFromLog(xids: seq<Byte>, infos: seq<LogInfo>, order: seq<I64>)
    requires RedoList(xids, infos).Ok?
    ensures ActiveList(xids, infos).Ok?
    ensures forall info :: info in RedoList(xids, infos).value ==> info in infos
    ensures forall info :: info in UndoList(Groups(ActiveList(xids, infos).value), order) ==> info in infos
  {
    StatusReadable(xids, infos);
    StatusPartition(xids, infos);
    RedoFromLog(xids, infos);
    UndoFromLog(xids, infos, order);
  }

  /** The redo pass replays only records of the log. */
  lemma RedoFromLog(xids: seq<Byte>, infos: seq<LogInfo>)
    requires RedoList(xids, infos).Ok? && ActiveList(xids, infos).Ok?
    requires multiset(RedoList(xids, infos).value) + multiset(ActiveList(xids, infos).value) == multiset(infos)
    ensures forall info :: info in RedoList(xids, infos).value ==> info in infos
  {
    forall info | info in RedoList(xids, infos).value
      ensures info in infos
    {
      assert info in multiset(RedoList(xids, infos).value);
      assert info in multiset(infos);
    }
  }

  /** The undo pass replays only records of the log. */
  lemma UndoFromLog(xids: seq<Byte>, infos: seq<LogInfo>, order: seq<I64>)
    requires RedoList(xids, infos).Ok? && ActiveList(xids, infos).Ok?
    requires multiset(RedoList(xids, infos).value) + multiset(ActiveList(xids, infos).value) == multiset(infos)
    ensures forall info :: info in UndoList(Groups(ActiveList(xids, infos).value), order) ==> info in infos
  {
    var active := ActiveList(xids, infos).value;
    forall info | info in UndoList(Groups(active), order)
      ensures info in infos
    {
      UndoListMembers(active, order, info);
      assert info in multiset(active);
      assert info in multiset(infos);
    }
  }

  // ---------------------------------------------------------------- methods

  /**
   * `doInsertLog`/`doUpdateLog`: fetch the page, change it, release it; a
   * changed page is written back when released.
   */
  method DoStep(pc: PageCache.PageCache, info: LogInfo, pass: Pass) returns (ok: bool)
    modifies pc`file
    ensures ok <==> Step(old(pc.file), info, pass).Ok?
    ensures ok ==> pc.file == Step(old(pc.file), info, pass).value
  {
    var p := info.pageNumber;
    if p < 1 {
      return false;
    }
    var page := pc.GetForCache(p);
    var img := Image(info, pass);
    if info.InsertLog? && pass == Undo && |img| == 0 {
      return false;
    }
    if info.offset < 0 || info.offset + |img| > PAGE_SIZE {
      return false;
    }
    if info.InsertLog? {
      CommonPage.RecoverInsert(page, img, info.offset);
    } else {
      CommonPage.RecoverUpdate(page, img, info.offset);
    }
    pc.ReleaseForCache(page);
    ok := true;
  }

  /** The loop of `redoTransactions` that collects the records of inactive xids. */
  method CollectRedo(tm: TransactionManager.XidFile, infos: seq<LogInfo>) returns (r: Result<seq<LogInfo>>)
    ensures r == RedoList(tm.file, infos)
  {
    StatusSplit(tm.file, infos);
    var list: seq<LogInfo> := [];
    var i := 0;
    while i < |infos|
      invariant 0 <= i <= |infos|
      invariant RedoList(tm.file, infos[..i]) == Ok(list)
    {
      assert infos[..i + 1][..i] == infos[..i];
      if TransactionManager.XidPosition(infos[i].xid) < 0 {
        assert !(forall j :: 0 <= j < |infos| ==> TransactionManager.XidPosition(infos[j].xid) >= 0);
        return Err(Panic);
      }
      if !tm.IsActive(infos[i].xid) {
        list := list + [infos[i]];
      }
      i := i + 1;
    }
    assert infos[..i] == infos;
    r := Ok(list);
  }

  /** The loop of `undoTransactions` that groups the records of active xids. */
  method CollectUndo(tm: TransactionManager.XidFile, infos: seq<LogInfo>) returns (r: Result<map<I64, seq<LogInfo>>>)
    ensures ActiveList(tm.file, infos).Err? ==> r == Err(Panic)
    ensures ActiveList(tm.file, infos).Ok? ==> r == Ok(Groups(ActiveList(tm.file, infos).value))
  {
    StatusSplit(tm.file, infos);
    ghost var active: seq<LogInfo> := [];
    var groups: map<I64, seq<LogInfo>> := map[];
    var i := 0;
    while i < |infos|
      invariant 0 <= i <= |infos|
      invariant ActiveList(tm.file, infos[..i]) == Ok(active)
      invariant groups == Groups(active)
    {
      assert infos[..i + 1][..i] == infos[..i];
      var info := infos[i];
      if TransactionManager.XidPosition(info.xid) < 0 {
        assert !(forall j :: 0 <= j < |infos| ==> TransactionManager.XidPosition(infos[j].xid) >= 0);
        return Err(Panic);
      }
      if tm.IsActive(info.xid) {
        var tmp := if info.xid in groups then groups[info.xid] else [];
        groups := groups[info.xid := tmp + [info]];
        assert (active + [info])[..|active|] == active;
        active := active + [info];
      }
      i := i + 1;
    }
    assert infos[..i] == infos;
    r := Ok(groups);
  }

  /** The replay loop of `redoTransactions`, in log order. */
  method RedoAll(pc: PageCache.PageCache, list: seq<LogInfo>) returns (ok: bool)
    modifies pc`file
    ensures ok <==> Replay(old(pc.file), list, Redo).Ok?
    ensures ok ==> pc.file == Replay(old(pc.file), list, Redo).value
  {
    var i := 0;
    while i < |list|
      invariant 0 <= i <= |list|
      invariant Replay(old(pc.file), list, Redo) == Replay(pc.file, list[i..], Redo)
    {
      ok := RedoNext(pc, list, i);
      if !ok {
        return;
      }
      i := i + 1;
    }
    ok := true;
  }

  /** One record of the redo loop: the replay of `list[i..]` goes on from the new file with `list[i + 1..]`. */
  method RedoNext(pc: PageCache.PageCache, list: seq<LogInfo>, i: int) returns (ok: bool)
    requires 0 <= i < |list|
    modifies pc`file
    ensures ok ==> Replay(old(pc.file), list[i..], Redo) == Replay(pc.file, list[i + 1..], Redo)
    ensures !ok ==> Replay(old(pc.file), list[i..], Redo).Err?
  {
    assert list[i..] == [list[i]] + list[i + 1..];
    ReplayCons(pc.file, list[i], list[i + 1..], Redo);
    ok := DoStep(pc, list[i], Redo);
  }

  /** The replay loops of `undoTransactions`: group by group, each group from its last record back. */
  method UndoAll(pc: PageCache.PageCache, groups: map<I64, seq<LogInfo>>, order: seq<I64>) returns (ok: bool)
    modifies pc`file
    ensures ok <==> Replay(old(pc.file), UndoList(groups, order), Undo).Ok?
    ensures ok ==> pc.file == Replay(old(pc.file), UndoList(groups, order), Undo).value
  {
    var k := 0;
    while k < |order|
      invariant 0 <= k <= |order|
      invariant Replay(old(pc.file), UndoList(groups, order), Undo)
             == Replay(pc.file, UndoList(groups, order[k..]), Undo)
    {
      ok := UndoNext(pc, groups, order, k);
      if !ok {
        return;
      }
      k := k + 1;
    }
    ok := true;
  }

  /** One xid of the undo loop: its group undone, the replay goes on with the xids after it. */
  method UndoNext(pc: PageCache.PageCache, groups: map<I64, seq<LogInfo>>, order: seq<I64>, k: int) returns (ok: bool)
    requires 0 <= k < |order|
    modifies pc`file
    ensures ok ==>
      Replay(old(pc.file), UndoList(groups, order[k..]), Undo) == Replay(pc.file, UndoList(groups, order[k + 1..]), Undo)
    ensures !ok ==> Replay(old(pc.file), UndoList(groups, order[k..]), Undo).Err?
  {
    var xid := order[k];
    assert order[k..][0] == xid && order[k..][1..] == order[k + 1..];
    ghost var rest := UndoList(groups, order[k + 1..]);
    if xid in groups {
      assert UndoList(groups, order[k..]) == Reverse(groups[xid]) + rest;
      ok := UndoGroup(pc, groups[xid], rest);
    } else {
      assert UndoList(groups, order[k..]) == [] + rest;
      assert [] + rest == rest;
      ok := true;
    }
  }

  /** The inner loop of `undoTransactions`: one xid's records, from its last back to its first. */
  method UndoGroup(pc: PageCache.PageCache, g: seq<LogInfo>, ghost rest: seq<LogInfo>) returns (ok: bool)
    modifies pc`file
    ensures ok ==> Replay(old(pc.file), Reverse(g) + rest, Undo) == Replay(pc.file, rest, Undo)
    ensures !ok ==> Replay(old(pc.file), Reverse(g) + rest, Undo).Err?
  {
    assert g[..|g|] == g;
    var i := |g| - 1;
    while i >= 0
      invariant -1 <= i < |g|
      invariant Replay(old(pc.file), Reverse(g) + rest, Undo)
             == Replay(pc.file, Reverse(g[..i + 1]) + rest, Undo)
    {
      ReverseStep(g, i, rest);
      ReplayCons(pc.file, g[i], Reverse(g[..i]) + rest, Undo);
      ok := DoStep(pc, g[i], Undo);
      if !ok {
        return;
      }
      i := i - 1;
    }
    assert Reverse(g[..0]) + rest == rest;
    ok := true;
  }

  /**
   * `recover`: the file is cut to `TruncateTarget` pages, then the whole
   * redo pass runs, then the undo pass; `false` where Java stops the
   * engine.
   */
  method RecoverDb(tm: TransactionManager.XidFile, lg: Logger.LogFile, pc: PageCache.PageCache, order: seq<I64>)
    returns (ok: bool)
    modifies lg`position, pc`file, pc`pageNumber
    ensures ok <==> RecoverImage(tm.file, lg.file, lg.fileSize, old(pc.file), order).Ok?
    ensures ok ==> pc.file == RecoverImage(tm.file, lg.file, lg.fileSize, old(pc.file), order).value
    ensures ok ==> pc.pageNumber == TruncateTarget(ParsedLog(lg.file, lg.fileSize).value)
    ensures lg.position >= 0
    ensures pc.pageNumber == old(pc.pageNumber) || pc.pageNumber >= 1
  {
    var infos := ReadRecords(lg);
    if infos.Err? {
      return false;
    }
    var m := MaxPageNumber(infos.value);
    if m == 0 {
      m := 1;
    }
    if m + 1 >= TWO_31 {
      return false;
    }
    pc.TruncateByBgno(m);

    var again := ReadRecords(lg);
    var redo := CollectRedo(tm, again.value);
    if redo.Err? {
      return false;
    }
    ok := RedoAll(pc, redo.value);
    if !ok {
      return;
    }

    var third := ReadRecords(lg);
    var groups := CollectUndo(tm, third.value);
    if groups.Err? {
      return false;
    }
    ok := UndoAll(pc, groups.value, order);
  }
}
