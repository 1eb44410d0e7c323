/**
 * The write-ahead log (`LoggerImpl`). The file is a 4-byte running checksum
 * `XChecksum` followed by records `[Size 4][Checksum 4][Data]`, possibly
 * followed by a torn tail. The file is an in-memory byte sequence; reads past
 * its end leave the buffer at zero, as a short `FileChannel.read` does.
 */
module Logger {
  import opened Bytes
  import opened Outcomes

  const SEED: int := 16191
  const OFFSET_X_CHECKSUM_LEN: int := 4
  const OFFSET_SIZE: int := 0
  const OFFSET_CHECKSUM: int := OFFSET_SIZE + 4
  const OFFSET_DATA: int := OFFSET_CHECKSUM + 4

  /** The longest payload whose framed record still has an `int` length. */
  const MAX_DATA: int := TWO_31 - 1 - OFFSET_DATA

  // ---------------------------------------------------------------- checksum

  /** One step of `calCheckSum`: `h * SEED + b` in Java `int` arithmetic. */
  function ChecksumStep(h: I32, b: Byte): I32
  {
    Wrap32(h * SEED + Signed(b))
  }

  /** `calCheckSum(h, s)`: the running hash folded over `s` from the front. */
  function Checksum(h: I32, s: seq<Byte>): I32
    decreases |s|
  {
    if s == [] then h else Checksum(ChecksumStep(h, s[0]), s[1..])
  }

  /** Hashing two pieces one after the other is hashing their concatenation. */
  lemma {:induction false} ChecksumConcat(h: I32, a: seq<Byte>, b: seq<Byte>)
    ensures Checksum(h, a + b) == Checksum(Checksum(h, a), b)
    decreases |a|
  {
    if a == [] {
      assert a + b == b;
    } else {
      assert (a + b)[0] == a[0];
      assert (a + b)[1..] == a[1..] + b;
      ChecksumConcat(ChecksumStep(h, a[0]), a[1..], b);
    }
  }

  /** `calCheckSum` */
  method CalCheckSum(xCheck: I32, log: seq<Byte>) returns (r: I32)
    ensures r == Checksum(xCheck, log)
  {
    r := xCheck;
    var i := 0;
    while i < |log|
      invariant 0 <= i <= |log|
      invariant Checksum(xCheck, log) == Checksum(r, log[i..])
    {
      assert log[i..][1..] == log[i + 1..];
      r := ChecksumStep(r, log[i]);
      i := i + 1;
    }
    assert log[i..] == [];
  }

  /** The running hash over several payloads, in order. */
  function FoldChecksum(h: I32, payloads: seq<seq<Byte>>): I32
    decreases |payloads|
  {
    if payloads == [] then h else FoldChecksum(Checksum(h, payloads[0]), payloads[1..])
  }

  /** Folding one more payload continues from the fold so far. */
  lemma {:induction false} FoldChecksumSnoc(h: I32, payloads: seq<seq<Byte>>, p: seq<Byte>)
    ensures FoldChecksum(h, payloads + [p]) == Checksum(FoldChecksum(h, payloads), p)
    decreases |payloads|
  {
    if payloads != [] {
      assert (payloads + [p])[1..] == payloads[1..] + [p];
      FoldChecksumSnoc(Checksum(h, payloads[0]), payloads[1..], p);
    }
  }

  // ----------------------------------------------------------------- framing

  /** `wrapLog`: `[Size][Checksum][Data]`. */
  function WrapLog(data: seq<Byte>): (r: seq<Byte>)
    requires |data| <= MAX_DATA
    ensures |r| == OFFSET_DATA + |data|
  {
    IntToBytes(|data|) + IntToBytes(Checksum(0, data)) + data
  }

  /** The pieces of a framed record read back as its length, its checksum and its payload. */
  lemma WrapLogFields(data: seq<Byte>)
    requires |data| <= MAX_DATA
    ensures ParseInt(WrapLog(data)[OFFSET_SIZE..OFFSET_CHECKSUM]) == |data|
    ensures ParseInt(WrapLog(data)[OFFSET_CHECKSUM..OFFSET_DATA]) == Checksum(0, data)
    ensures WrapLog(data)[OFFSET_DATA..] == data
  {
    var a := IntToBytes(|data|);
    var b := IntToBytes(Checksum(0, data));
    assert WrapLog(data) == a + b + data;
    SplitFour(a, b, data);
    IntRoundTrip(|data|);
    IntRoundTrip(Checksum(0, data));
  }

  /** Two 4-byte fields and a tail, cut apart again. */
  lemma SplitFour(a: seq<Byte>, b: seq<Byte>, c: seq<Byte>)
    requires |a| == 4 && |b| == 4
    ensures (a + b + c)[OFFSET_SIZE..OFFSET_CHECKSUM] == a
    ensures (a + b + c)[OFFSET_CHECKSUM..OFFSET_DATA] == b
    ensures (a + b + c)[OFFSET_DATA..] == c
  {
  }

  /** `n` bytes read at `pos`; whatever lies past the end of the file reads as 0. */
  function ReadN(file: seq<Byte>, pos: nat, n: nat): (r: seq<Byte>)
    ensures |r| == n
    ensures pos + n <= |file| ==> r == file[pos..pos + n]
  {
    var r := seq<Byte>(n, i requires 0 <= i < n => ReadByte(file, pos + i));
    assert pos + n <= |file| ==> r == file[pos..pos + n] by {
      if pos + n <= |file| {
        forall i | 0 <= i < n ensures r[i] == file[pos..pos + n][i] {
          assert r[i] == ReadByte(file, pos + i);
          assert file[pos..pos + n][i] == file[pos + i];
        }
      }
    }
    r
  }

  /** What `internNext` finds at a position. */
  datatype Frame =
    | Record(log: seq<Byte>)   // a well-formed record, header included
    | End                      // no further record: too short, overrunning, or a bad checksum
    | Fault                    // a negative size field: Java throws

  /**
   * `internNext` at `pos`, judged against the file size recorded at open:
   * fewer than 8 bytes left, a size that overruns, or a checksum mismatch
   * ends the scan.
   */
  function FrameAt(file: seq<Byte>, pos: nat, fileSize: int): (f: Frame)
    ensures f.Record? ==> |f.log| >= OFFSET_DATA && pos + |f.log| <= fileSize
  {
    if pos + OFFSET_DATA > fileSize then End
    else
      var size := ParseInt(ReadN(file, pos, OFFSET_CHECKSUM));
      if pos + size + OFFSET_DATA > fileSize then End
      else if size < 0 then Fault
      else
        var log := ReadN(file, pos, OFFSET_DATA + size);
        assert log[OFFSET_SIZE..OFFSET_CHECKSUM] == ReadN(file, pos, OFFSET_CHECKSUM);
        if Checksum(0, log[OFFSET_DATA..]) != ParseInt(log[OFFSET_CHECKSUM..OFFSET_DATA]) then End
        else Record(log)
  }

  /** A record `internNext` returns has a size field giving its payload's length and a matching checksum. */
  lemma FrameAtFields(file: seq<Byte>, pos: nat, fileSize: int)
    requires FrameAt(file, pos, fileSize).Record?
    ensures var log := FrameAt(file, pos, fileSize).log;
      && ParseInt(log[OFFSET_SIZE..OFFSET_CHECKSUM]) == |log| - OFFSET_DATA
      && ParseInt(log[OFFSET_CHECKSUM..OFFSET_DATA]) == Checksum(0, log[OFFSET_DATA..])
  {
    var size := ParseInt(ReadN(file, pos, OFFSET_CHECKSUM));
    var log := ReadN(file, pos, OFFSET_DATA + size);
    assert log[OFFSET_SIZE..OFFSET_CHECKSUM] == ReadN(file, pos, OFFSET_CHECKSUM);
  }

  /** A framed record lying in the file before the recorded size reads back as itself. */
  lemma FrameAtWrapLog(file: seq<Byte>, pos: nat, fileSize: int, data: seq<Byte>)
    requires |data| <= MAX_DATA
    requires pos + OFFSET_DATA + |data| <= fileSize <= |file|
    requires file[pos..pos + OFFSET_DATA + |data|] == WrapLog(data)
    ensures FrameAt(file, pos, fileSize) == Record(WrapLog(data))
  {
    var w := WrapLog(data);
    WrapLogFields(data);
    assert ReadN(file, pos, OFFSET_CHECKSUM) == w[OFFSET_SIZE..OFFSET_CHECKSUM];
  }

  /** Where a scan from the first record stops, and the payloads it read. */
  datatype Scan = Scan(end: nat, payloads: seq<seq<Byte>>)

  /** Reading records with `internNext` until the first one that is not well formed. */
  function ScanFrom(file: seq<Byte>, pos: nat, fileSize: int): (r: Result<Scan>)
    decreases Max(0, fileSize - pos)
    ensures r.Err? ==> r.error == Panic
  {
    match FrameAt(file, pos, fileSize)
    case End => Ok(Scan(pos, []))
    case Fault => Err(Panic)
    case Record(log) =>
      match ScanFrom(file, pos + |log|, fileSize)
      case Err(e) => Err(e)
      case Ok(s) => Ok(Scan(s.end, [log[OFFSET_DATA..]] + s.payloads))
  }

  /** `seen` read first, then what `rest` reads. */
  function Prepend(seen: seq<seq<Byte>>, rest: Result<Scan>): Result<Scan>
  {
    match rest
    case Err(e) => Err(e)
    case Ok(s) => Ok(Scan(s.end, seen + s.payloads))
  }

  /** A scan from the first record reads `seen` and then goes on as a scan from `at`. */
  ghost predicate ScannedTo(file: seq<Byte>, fileSize: int, seen: seq<seq<Byte>>, at: nat)
  {
    ScanFrom(file, OFFSET_X_CHECKSUM_LEN, fileSize) == Prepend(seen, ScanFrom(file, at, fileSize))
  }

  /** Before any record is read, the scan from the first record is all still to come. */
  lemma ScannedToStart(file: seq<Byte>, fileSize: int)
    ensures ScannedTo(file, fileSize, [], OFFSET_X_CHECKSUM_LEN)
  {
    match ScanFrom(file, OFFSET_X_CHECKSUM_LEN, fileSize)
    case Err(_) =>
    case Ok(s) => assert [] + s.payloads == s.payloads;
  }

  /**
   * With the payloads `seen` read from the first record up to `at`, meeting
   * no record there ends the whole scan at `at`, and meeting a fault fails it.
   */
  lemma ScanStops(file: seq<Byte>, fileSize: int, seen: seq<seq<Byte>>, at: nat)
    requires ScannedTo(file, fileSize, seen, at)
    ensures FrameAt(file, at, fileSize).End? ==> ScanFrom(file, OFFSET_X_CHECKSUM_LEN, fileSize) == Ok(Scan(at, seen))
    ensures FrameAt(file, at, fileSize).Fault? ==> ScanFrom(file, OFFSET_X_CHECKSUM_LEN, fileSize).Err?
  {
    assert seen + [] == seen;
  }

  /** Meeting a record at `at` adds its payload to those read and moves past it. */
  lemma ScanAdvances(file: seq<Byte>, fileSize: int, seen: seq<seq<Byte>>, at: nat, log: seq<Byte>,
                     p: seq<Byte>, next: nat)
    requires ScannedTo(file, fileSize, seen, at)
    requires FrameAt(file, at, fileSize) == Record(log)
    requires p == log[OFFSET_DATA..] && next == at + |log|
    ensures ScannedTo(file, fileSize, seen + [p], next)
  {
    PrependSnoc(seen, p, ScanFrom(file, next, fileSize));
  }

  /** Reading `seen` and then one more payload is reading `seen + [p]`. */
  lemma PrependSnoc(seen: seq<seq<Byte>>, p: seq<Byte>, rest: Result<Scan>)
    ensures Prepend(seen, Prepend([p], rest)) == Prepend(seen + [p], rest)
  {
    match rest
    case Err(_) =>
    case Ok(s) => assert seen + ([p] + s.payloads) == (seen + [p]) + s.payloads;
  }

  /** The records of the payloads `ds`, one after another. */
  function Frames(ds: seq<seq<Byte>>): (r: seq<Byte>)
    requires forall i :: 0 <= i < |ds| ==> |ds[i]| <= MAX_DATA
  {
    if ds == [] then [] else WrapLog(ds[0]) + Frames(ds[1..])
  }

  /** Appending a payload appends its record. */
  lemma {:induction false} FramesSnoc(ds: seq<seq<Byte>>, d: seq<Byte>)
    requires forall i :: 0 <= i < |ds| ==> |ds[i]| <= MAX_DATA
    requires |d| <= MAX_DATA
    ensures Frames(ds + [d]) == Frames(ds) + WrapLog(d)
    decreases |ds|
  {
    if ds == [] {
      assert [d][1..] == [];
    } else {
      assert (ds + [d])[1..] == ds[1..] + [d];
      FramesSnoc(ds[1..], d);
    }
  }

  /** A file holding the records of `ds` and nothing else, with its checksum in the header. */
  function LogImage(ds: seq<seq<Byte>>): (r: seq<Byte>)
    requires forall i :: 0 <= i < |ds| ==> |ds[i]| <= MAX_DATA
    ensures |r| >= OFFSET_X_CHECKSUM_LEN
  {
    IntToBytes(FoldChecksum(0, ds)) + Frames(ds)
  }

  /** Scanning the records of `ds` reads `ds` back and stops right after them. */
  lemma {:induction false} ScanFrames(file: seq<Byte>, pos: nat, ds: seq<seq<Byte>>)
    requires forall i :: 0 <= i < |ds| ==> |ds[i]| <= MAX_DATA
    requires pos + |Frames(ds)| == |file|
    requires file[pos..] == Frames(ds)
    ensures ScanFrom(file, pos, |file|) == Ok(Scan(|file|, ds))
    decreases |ds|
  {
    if ds != [] {
      var w := WrapLog(ds[0]);
      FramesHead(file, pos, ds);
      ScanFrames(file, pos + |w|, ds[1..]);
      ScanOneFrame(file, pos, ds[0], ds[1..]);
      assert [ds[0]] + ds[1..] == ds;
    }
  }

  /** A file ending in the records of `ds` holds the first record, then the records of the rest. */
  lemma FramesHead(file: seq<Byte>, pos: nat, ds: seq<seq<Byte>>)
    requires forall i :: 0 <= i < |ds| ==> |ds[i]| <= MAX_DATA
    requires ds != [] && pos <= |file|
    requires file[pos..] == Frames(ds)
    ensures pos + |WrapLog(ds[0])| <= |file|
    ensures file[pos..pos + |WrapLog(ds[0])|] == WrapLog(ds[0])
    ensures file[pos + |WrapLog(ds[0])|..] == Frames(ds[1..])
  {
    var w := WrapLog(ds[0]);
    assert file[pos..] == w + Frames(ds[1..]);
    assert file[pos..pos + |w|] == file[pos..][..|w|];
    assert file[pos + |w|..] == file[pos..][|w|..];
  }

  /** A record of `d` at `pos`, followed by a scan reading `rest`, makes a scan reading `d` then `rest`. */
  lemma ScanOneFrame(file: seq<Byte>, pos: nat, d: seq<Byte>, rest: seq<seq<Byte>>)
    requires |d| <= MAX_DATA
    requires pos + |WrapLog(d)| <= |file|
    requires file[pos..pos + |WrapLog(d)|] == WrapLog(d)
    requires ScanFrom(file, pos + |WrapLog(d)|, |file|) == Ok(Scan(|file|, rest))
    ensures ScanFrom(file, pos, |file|) == Ok(Scan(|file|, [d] + rest))
  {
    FrameAtWrapLog(file, pos, |file|, d);
    ScanWrapLogStep(file, pos, d);
  }

  /** Meeting the record of `d`, a scan reads `d` and goes on right after the record. */
  lemma ScanWrapLogStep(file: seq<Byte>, pos: nat, d: seq<Byte>)
    requires |d| <= MAX_DATA
    requires FrameAt(file, pos, |file|) == Record(WrapLog(d))
    ensures ScanFrom(file, pos, |file|) == Prepend([d], ScanFrom(file, pos + |WrapLog(d)|, |file|))
  {
    ScanRecordStep(file, pos, |file|, WrapLog(d));
    WrapLogFields(d);
  }

  /** Meeting a record, a scan reads its payload and goes on right after it. */
  lemma ScanRecordStep(file: seq<Byte>, pos: nat, fileSize: int, log: seq<Byte>)
    requires FrameAt(file, pos, fileSize) == Record(log)
    ensures ScanFrom(file, pos, fileSize) == Prepend([log[OFFSET_DATA..]], ScanFrom(file, pos + |log|, fileSize))
  {
  }

  /** Reopening a log file reads back exactly what was logged, and keeps all of it. */
  lemma ReopenReadsLogged(ds: seq<seq<Byte>>)
    requires forall i :: 0 <= i < |ds| ==> |ds[i]| <= MAX_DATA
    ensures ScanFrom(LogImage(ds), OFFSET_X_CHECKSUM_LEN, |LogImage(ds)|) == Ok(Scan(|LogImage(ds)|, ds))
    ensures ParseInt(LogImage(ds)[..OFFSET_X_CHECKSUM_LEN]) == FoldChecksum(0, ds)
  {
    var f := LogImage(ds);
    assert f[OFFSET_X_CHECKSUM_LEN..] == Frames(ds);
    ScanFrames(f, OFFSET_X_CHECKSUM_LEN, ds);
    assert f[..OFFSET_X_CHECKSUM_LEN] == IntToBytes(FoldChecksum(0, ds));
    IntRoundTrip(FoldChecksum(0, ds));
  }

  /** `log(data)` at `position` with running checksum `xChecksum`: the record, then the new header. */
  function AfterLog(file: seq<Byte>, position: nat, xChecksum: I32, data: seq<Byte>): seq<Byte>
    requires |data| <= MAX_DATA
  {
    WriteAt(WriteAt(file, position, WrapLog(data)), 0, IntToBytes(Checksum(xChecksum, data)))
  }

  /** Logging at the end of a log file gives the log file of one more payload. */
  lemma LogExtendsImage(ds: seq<seq<Byte>>, d: seq<Byte>)
    requires forall i :: 0 <= i < |ds| ==> |ds[i]| <= MAX_DATA
    requires |d| <= MAX_DATA
    ensures AfterLog(LogImage(ds), |LogImage(ds)|, FoldChecksum(0, ds), d) == LogImage(ds + [d])
  {
    var f, w := LogImage(ds), WrapLog(d);
    var header := IntToBytes(Checksum(FoldChecksum(0, ds), d));
    WriteAtEnd(f, w);
    WriteAtStart(f + w, header);
    FramesSnoc(ds, d);
    FoldChecksumSnoc(0, ds, d);
    DropHeader(IntToBytes(FoldChecksum(0, ds)), Frames(ds), w);
  }

  /** Dropping a header from a file extended by a record leaves the records and the new one. */
  lemma DropHeader(header: seq<Byte>, frames: seq<Byte>, w: seq<Byte>)
    ensures (header + frames + w)[|header|..] == frames + w
  {
    assert header + frames + w == header + (frames + w);
  }

  /** `truncate(x)`: cuts the file to `x` bytes; a longer `x` leaves it alone. */
  function Truncate(file: seq<Byte>, x: nat): (r: seq<Byte>)
    ensures |r| == if x < |file| then x else |file|
  {
    if x < |file| then file[..x] else file
  }

  /**
   * Reopening a log file after a record was logged at position 4, where
   * `open` leaves the position: the first record is overwritten and the
   * header no longer matches the records, so the file is refused.
   */
  lemma LogAfterOpenOverwrites()
    ensures var f := AfterLog(LogImage([[1]]), OFFSET_X_CHECKSUM_LEN, FoldChecksum(0, [[1]]), [1]);
      && ScanFrom(f, OFFSET_X_CHECKSUM_LEN, |f|) == Ok(Scan(|f|, [[1]]))
      && FoldChecksum(0, [[1]]) != ParseInt(f[..OFFSET_X_CHECKSUM_LEN])
  {
    var ds: seq<seq<Byte>> := [[1]];
    var f0 := LogImage(ds);
    assert Checksum(0, [1]) == 1;
    assert FoldChecksum(0, ds) == 1;
    assert Checksum(1, [1]) == 16192;
    var f := AfterLog(f0, OFFSET_X_CHECKSUM_LEN, 1, [1]);
    assert |f0| == |f|;
    assert f[OFFSET_X_CHECKSUM_LEN..] == f0[OFFSET_X_CHECKSUM_LEN..];
    ReopenReadsLogged(ds);
    assert f[..OFFSET_X_CHECKSUM_LEN] == IntToBytes(16192);
    IntRoundTrip(16192);
    assert f0[OFFSET_X_CHECKSUM_LEN..] == Frames(ds);
    ScanFrames(f, OFFSET_X_CHECKSUM_LEN, ds);
  }

  /**
   * After a torn tail of 8 bytes or more is cut off at open, the file size
   * recorded at open is stale: at the cut, `internNext` reads eight zero
   * bytes, which form a well-formed empty record.
   */
  lemma StaleSizeYieldsEmptyRecord()
    ensures var contents: seq<Byte> := [0, 0, 0, 0, 0, 0, 0, 5, 0, 0, 0, 0];
      && ScanFrom(contents, OFFSET_X_CHECKSUM_LEN, |contents|) == Ok(Scan(4, []))
      && FoldChecksum(0, []) == ParseInt(contents[..4])
      && FrameAt(Truncate(contents, 4), OFFSET_X_CHECKSUM_LEN, |contents|) == Record(seq(8, _ => 0))
  {
    var contents: seq<Byte> := [0, 0, 0, 0, 0, 0, 0, 5, 0, 0, 0, 0];
    assert ReadN(contents, 4, 4) == [0, 0, 0, 5];
    FromBigEndianFour([0, 0, 0, 5]);
    assert ParseInt(ReadN(contents, 4, 4)) == 5;
    assert FrameAt(contents, 4, 12) == End;
    assert contents[..4] == [0, 0, 0, 0];
    FromBigEndianFour([0, 0, 0, 0]);
    var t := Truncate(contents, 4);
    assert ReadN(t, 4, 4) == [0, 0, 0, 0];
    assert ReadN(t, 4, 8) == seq(8, _ => 0);
    assert seq<Byte>(8, _ => 0)[8..] == [];
    assert seq<Byte>(8, _ => 0)[4..8] == [0, 0, 0, 0];
  }

  class LogFile {
    /** The log file. */
    var file: seq<Byte>
    /** Where the next record is read or written. */
    var position: int
    /** The file length when it was opened; `log` does not update it. */
    var fileSize: int
    /** The running checksum of every payload logged. */
    var xChecksum: I32

    /** The two-argument constructor: every field starts at Java's default. */
    constructor Attach(contents: seq<Byte>)
      ensures file == contents && position == 0 && fileSize == 0 && xChecksum == 0
    {
      file := contents;
      position := 0;
      fileSize := 0;
      xChecksum := 0;
    }

    /** The three-argument constructor: a known checksum, positioned after the header. */
    constructor WithChecksum(contents: seq<Byte>, xChecksum: I32)
      ensures file == contents && position == OFFSET_X_CHECKSUM_LEN && fileSize == 0
      ensures this.xChecksum == xChecksum
    {
      file := contents;
      position := OFFSET_X_CHECKSUM_LEN;
      fileSize := 0;
      this.xChecksum := xChecksum;
    }

    /**
     * `create`: four zero bytes at the start of the (possibly existing)
     * file, checksum 0, positioned after the header.
     */
    static method Create(existing: seq<Byte>) returns (lg: LogFile)
      ensures fresh(lg)
      ensures lg.file == WriteAt(existing, 0, IntToBytes(0))
      ensures lg.position == OFFSET_X_CHECKSUM_LEN && lg.xChecksum == 0 && lg.fileSize == 0
      ensures |existing| <= OFFSET_X_CHECKSUM_LEN ==> lg.file == LogImage([])
    {
      lg := new LogFile.WithChecksum(WriteAt(existing, 0, IntToBytes(0)), 0);
      if |existing| <= OFFSET_X_CHECKSUM_LEN {
        assert lg.file == IntToBytes(0) + [];
      }
    }

    /** `rewind` */
    method Rewind()
      modifies this`position
      ensures position == OFFSET_X_CHECKSUM_LEN
    {
      position := OFFSET_X_CHECKSUM_LEN;
    }

    /** `internNext`: the record at the position, which moves past it only when it is well formed. */
    method InternNext() returns (f: Frame)
      requires position >= 0
      modifies this`position
      ensures f == FrameAt(file, old(position), fileSize)
      ensures f.Record? ==> position == old(position) + |f.log|
      ensures !f.Record? ==> position == old(position)
    {
      if position + OFFSET_DATA > fileSize {
        return End;
      }
      var sizeBytes := ReadN(file, position, OFFSET_CHECKSUM);
      var size := ParseInt(sizeBytes);
      if position + size + OFFSET_DATA > fileSize {
        return End;
      }
      if size < 0 {
        return Fault;
      }
      var log := ReadN(file, position, OFFSET_DATA + size);
      var checkSum1 := CalCheckSum(0, log[OFFSET_DATA..]);
      var checkSum2 := ParseInt(log[OFFSET_CHECKSUM..OFFSET_DATA]);
      if checkSum1 != checkSum2 {
        return End;
      }
      position := position + |log|;
      f := Record(log);
    }

    /** `next`: the payload of the record at the position, header stripped; `None` at the end. */
    method Next() returns (r: Result<Option<seq<Byte>>>)
      requires position >= 0
      modifies this`position
      ensures var f := FrameAt(file, old(position), fileSize);
        && (f.Record? ==> r == Ok(Some(f.log[OFFSET_DATA..])) && position == old(position) + |f.log|)
        && (f.End? ==> r == Ok(None) && position == old(position))
        && (f.Fault? ==> r == Err(Panic) && position == old(position))
    {
      var f := InternNext();
      match f {
        case Record(log) => r := Ok(Some(log[OFFSET_DATA..]));
        case End => r := Ok(None);
        case Fault => r := Err(Panic);
      }
    }

    /**
     * The scan of `checkAndRemoveTail`: reads every well-formed record from
     * the first and stops at the first that is not, summing the payloads'
     * checksums as it goes.
     */
    method ScanRecords() returns (fault: bool, xCheck: I32)
      modifies this`position
      ensures fault <==> ScanFrom(file, OFFSET_X_CHECKSUM_LEN, fileSize).Err?
      ensures !fault ==>
        var s := ScanFrom(file, OFFSET_X_CHECKSUM_LEN, fileSize).value;
        xCheck == FoldChecksum(0, s.payloads) && position == s.end
    {
      position := OFFSET_X_CHECKSUM_LEN;
      xCheck := 0;
      ghost var image, size := file, fileSize;
      ghost var seen: seq<seq<Byte>> := [];
      ScannedToStart(image, size);
      while true
        invariant file == image && fileSize == size
        invariant position >= OFFSET_X_CHECKSUM_LEN
        invariant ScannedTo(image, size, seen, position)
        invariant xCheck == FoldChecksum(0, seen)
        decreases Max(0, size - position)
      {
        ghost var at := position;
        var f := InternNext();
        ScanStops(image, size, seen, at);
        if f.Fault? {
          return true, xCheck;
        }
        if f.End? {
          return false, xCheck;
        }
        var payload := f.log[OFFSET_DATA..];
        ScanAdvances(image, size, seen, at, f.log, payload, position);
        FoldChecksumSnoc(0, seen, payload);
        xCheck := CalCheckSum(xCheck, payload);
        seen := seen + [payload];
      }
    }

    /**
     * `checkAndRemoveTail`: the payloads' checksum must equal the header's;
     * then the file is cut after the last well-formed record and the
     * position rewound.
     */
    method CheckAndRemoveTail() returns (err: Option<Error>)
      modifies this`position, this`file
      ensures var s := ScanFrom(old(file), OFFSET_X_CHECKSUM_LEN, fileSize);
        && (s.Err? ==> err == Some(Panic) && file == old(file))
        && (s.Ok? && FoldChecksum(0, s.value.payloads) != xChecksum ==>
              err == Some(BadLogFile) && file == old(file))
        && (s.Ok? && FoldChecksum(0, s.value.payloads) == xChecksum ==>
              && err == None
              && file == Truncate(old(file), s.value.end)
              && position == OFFSET_X_CHECKSUM_LEN)
    {
      var fault, xCheck := ScanRecords();
      if fault {
        return Some(Panic);
      }
      if xCheck != xChecksum {
        return Some(BadLogFile);
      }
      file := Truncate(file, position);
      Rewind();
      err := None;
    }

    /**
     * `init`: a file shorter than the header is refused; otherwise the
     * header is the expected checksum, the current length is recorded,
     * and the tail is checked and removed.
     */
    method Init() returns (err: Option<Error>)
      modifies this
      ensures |old(file)| < OFFSET_X_CHECKSUM_LEN ==> err == Some(BadLogFile)
      ensures |old(file)| >= OFFSET_X_CHECKSUM_LEN ==>
        var s := ScanFrom(old(file), OFFSET_X_CHECKSUM_LEN, |old(file)|);
        var header := ParseInt(old(file)[..OFFSET_X_CHECKSUM_LEN]);
        && xChecksum == header && fileSize == |old(file)|
        && (s.Err? ==> err == Some(Panic))
        && (s.Ok? && FoldChecksum(0, s.value.payloads) != header ==> err == Some(BadLogFile))
        && (s.Ok? && FoldChecksum(0, s.value.payloads) == header ==>
              && err == None
              && file == Truncate(old(file), s.value.end)
              && position == OFFSET_X_CHECKSUM_LEN)
    {
      var size := |file|;
      if size < OFFSET_X_CHECKSUM_LEN {
        return Some(BadLogFile);
      }
      xChecksum := ParseInt(file[..OFFSET_X_CHECKSUM_LEN]);
      fileSize := size;
      err := CheckAndRemoveTail();
    }

    /** `open`: attach to the file and run `init`. */
    static method Open(contents: seq<Byte>) returns (r: Result<LogFile>)
      ensures |contents| < OFFSET_X_CHECKSUM_LEN ==> r == Err(BadLogFile)
      ensures |contents| >= OFFSET_X_CHECKSUM_LEN ==>
        var s := ScanFrom(contents, OFFSET_X_CHECKSUM_LEN, |contents|);
        var header := ParseInt(contents[..OFFSET_X_CHECKSUM_LEN]);
        && (s.Err? ==> r == Err(Panic))
        && (s.Ok? && FoldChecksum(0, s.value.payloads) != header ==> r == Err(BadLogFile))
        && (s.Ok? && FoldChecksum(0, s.value.payloads) == header ==>
              && r.Ok? && fresh(r.value)
              && r.value.file == Truncate(contents, s.value.end)
              && r.value.position == OFFSET_X_CHECKSUM_LEN
              && r.value.fileSize == |contents|
              && r.value.xChecksum == header)
    {
      var lg := new LogFile.Attach(contents);
      var err := lg.Init();
      if err.Some? {
        return Err(err.value);
      }
      r := Ok(lg);
    }

    /**
     * `open` as intended: the position is left after the last well-formed
     * record, where the next record belongs, and the recorded size is the
     * length after the cut.
     */
    static method OpenAtEnd(contents: seq<Byte>) returns (r: Result<LogFile>)
      ensures |contents| < OFFSET_X_CHECKSUM_LEN ==> r == Err(BadLogFile)
      ensures |contents| >= OFFSET_X_CHECKSUM_LEN ==>
        var s := ScanFrom(contents, OFFSET_X_CHECKSUM_LEN, |contents|);
        var header := ParseInt(contents[..OFFSET_X_CHECKSUM_LEN]);
        && (s.Err? ==> r == Err(Panic))
        && (s.Ok? && FoldChecksum(0, s.value.payloads) != header ==> r == Err(BadLogFile))
        && (s.Ok? && FoldChecksum(0, s.value.payloads) == header ==>
              && r.Ok? && fresh(r.value)
              && r.value.file == Truncate(contents, s.value.end)
              && r.value.position == |r.value.file|
              && r.value.fileSize == |r.value.file|
              && r.value.xChecksum == header)
    {
      var lg := new LogFile.Attach(contents);
      var err := lg.Init();
      if err.Some? {
        return Err(err.value);
      }
      assert lg.position == OFFSET_X_CHECKSUM_LEN;
      ghost var s := ScanFrom(contents, OFFSET_X_CHECKSUM_LEN, |contents|).value;
      ScanEndsInFile(contents, OFFSET_X_CHECKSUM_LEN, |contents|);
      lg.position := |lg.file|;
      lg.fileSize := |lg.file|;
      r := Ok(lg);
    }

    /**
     * `log`: the framed record is written at the position, the position
     * moves past it, and the running checksum takes in the payload and is
     * rewritten in the header.
     */
    method Log(data: seq<Byte>)
      requires position >= 0 && |data| <= MAX_DATA
      modifies this`file, this`position, this`xChecksum
      ensures file == AfterLog(old(file), old(position), old(xChecksum), data)
      ensures position == old(position) + OFFSET_DATA + |data|
      ensures xChecksum == Checksum(old(xChecksum), data)
    {
      var raw := WrapLog(data);
      file := WriteAt(file, position, raw);
      position := position + |raw|;
      // updateXCheckSum
      xChecksum := CalCheckSum(xChecksum, data);
      file := WriteAt(file, 0, IntToBytes(xChecksum));
    }

    /** The file holds exactly the records of `ds`, and the position is at its end. */
    ghost predicate Holds(ds: seq<seq<Byte>>)
      reads this
    {
      && (forall i :: 0 <= i < |ds| ==> |ds[i]| <= MAX_DATA)
      && file == LogImage(ds)
      && position == |file|
      && xChecksum == FoldChecksum(0, ds)
    }

    /** Logging from the end of a well-formed log keeps it well formed with one more payload. */
    method Append(data: seq<Byte>, ghost ds: seq<seq<Byte>>)
      requires Holds(ds) && |data| <= MAX_DATA
      modifies this`file, this`position, this`xChecksum
      ensures Holds(ds + [data])
    {
      LogExtendsImage(ds, data);
      FoldChecksumSnoc(0, ds, data);
      Log(data);
      assert file == LogImage(ds + [data]);
    }
  }

  /** A scan never ends before the header nor past the recorded size or the file. */
  lemma {:induction false} ScanEndsInFile(file: seq<Byte>, pos: nat, fileSize: int)
    requires pos <= fileSize || pos <= |file|
    requires ScanFrom(file, pos, fileSize).Ok?
    ensures pos <= ScanFrom(file, pos, fileSize).value.end
    ensures ScanFrom(file, pos, fileSize).value.end <= Max(pos, fileSize)
    decreases Max(0, fileSize - pos)
  {
    match FrameAt(file, pos, fileSize)
    case End =>
    case Fault =>
    case Record(log) =>
      ScanEndsInFile(file, pos + |log|, fileSize);
  }
}
