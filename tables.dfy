/**
 * Tables (`Table`): the stored form of a table, rows as maps from column
 * name to value and their stored bytes, the key ranges a `where` clause
 * asks the column index for, and the row operations `insert`, `read`,
 * `update` and `delete`.
 *
 * The version manager and the column trees are seen through `RowStore`:
 * the rows visible to the transaction at work, and the (tree, key, uid)
 * entries the column trees hold. A search returns the uids of the matching
 * entries in the order they were added.
 */
module TableRules {
  import opened Bytes
  import opened Outcomes
  import opened FieldRules
  import SqlParser

  // ---------------------------------------------------------------------
  // The stored form of a table: [name][next table uid][field uid]...

  /** The stored fields of a table: its name, the next table of the catalogue, the uids of its columns. */
  datatype TableRecord = TableRecord(name: string, nextUid: I64, fieldUids: seq<I64>)

  function UidsToBytes(us: seq<I64>): (b: seq<Byte>)
    ensures |b| == 8 * |us|
  {
    if |us| == 0 then [] else LongToBytes(us[0]) + UidsToBytes(us[1..])
  }

  /** The loop of `parseSelf(byte[])`: eight bytes at a time while any remain, zero-padded at the end. */
  function ParseUids(raw: seq<Byte>): (us: seq<I64>)
    ensures |us| == (|raw| + 7) / 8
  {
    if |raw| == 0 then []
    else if |raw| <= 8 then [ParseLong(CopyOf(raw, 8))]
    else [ParseLong(CopyOf(raw, 8))] + ParseUids(raw[8..])
  }

  /** `parseSelf(long)`: the bytes a new table is stored as. */
  function TableToBytes(t: TableRecord): (b: seq<Byte>)
    ensures |b| == 4 + |t.name| + 8 + 8 * |t.fieldUids|
  {
    StringToBytes(t.name) + LongToBytes(t.nextUid) + UidsToBytes(t.fieldUids)
  }

  /** `parseSelf(byte[])`: name, next uid (zero-padded), then column uids to the end. */
  function ParseTable(raw: seq<Byte>): (r: Result<TableRecord>)
    ensures r.Err? ==> r.error == OutOfBounds
  {
    var n := ParseString(raw);
    if n.Err? then Err(n.error)
    else
      var pos := n.value.next;
      var next := ParseLong(CopyOf(raw[pos..], 8));
      Ok(TableRecord(n.value.str, next, if pos + 8 <= |raw| then ParseUids(raw[pos + 8..]) else []))
  }

  lemma {:induction false} UidsRoundTrip(us: seq<I64>)
    ensures ParseUids(UidsToBytes(us)) == us
  {
    if |us| > 0 {
      var b := UidsToBytes(us);
      assert CopyOf(b, 8) == LongToBytes(us[0]);
      LongRoundTrip(us[0]);
      if |us| > 1 {
        assert b[8..] == UidsToBytes(us[1..]);
        UidsRoundTrip(us[1..]);
      } else {
        assert us == [us[0]];
      }
    }
  }

  /** A table loads back as it was stored. */
  lemma TableRoundTrip(t: TableRecord)
    requires Storable(t.name)
    ensures ParseTable(TableToBytes(t)) == Ok(t)
  {
    var a, b, c := StringToBytes(t.name), LongToBytes(t.nextUid), UidsToBytes(t.fieldUids);
    var raw := a + b + c;
    assert raw == a + (b + c);
    StringRoundTrip(t.name, b + c);
    assert raw[|a|..][..8] == b;
    assert CopyOf(raw[|a|..], 8) == b;
    LongRoundTrip(t.nextUid);
    assert raw[|a| + 8..] == c;
    UidsRoundTrip(t.fieldUids);
  }

  // ---------------------------------------------------------------------
  // Rows.

  /** A row as the engine holds it: column name to value, `None` for null. */
  type Entry = map<string, Option<Value>>

  /** `entry.get(name)`: null when absent. */
  function Get(e: Entry, name: string): Option<Value>
  {
    if name in e then e[name] else None
  }

  /** The names of the columns. */
  function Names(fields: seq<Field>): set<string>
  {
    set i | 0 <= i < |fields| :: fields[i].name
  }

  lemma NamesSnoc(fields: seq<Field>, f: Field)
    ensures Names(fields + [f]) == Names(fields) + {f.name}
  {
    var all := fields + [f];
    forall n | n in Names(all) ensures n in Names(fields) + {f.name} {
      var i :| 0 <= i < |all| && all[i].name == n;
      if i < |fields| { assert fields[i].name == n; }
    }
    forall n | n in Names(fields) ensures n in Names(all) {
      var i :| 0 <= i < |fields| && fields[i].name == n;
      assert all[i].name == n;
    }
    assert all[|fields|].name == f.name;
  }

  lemma NamesCons(fields: seq<Field>)
    requires |fields| > 0
    ensures Names(fields) == {fields[0].name} + Names(fields[1..])
  {
    var rest := fields[1..];
    forall n | n in Names(fields) ensures n in {fields[0].name} + Names(rest) {
      var i :| 0 <= i < |fields| && fields[i].name == n;
      if i > 0 { assert rest[i - 1].name == n; }
    }
    forall n | n in Names(rest) ensures n in Names(fields) {
      var i :| 0 <= i < |rest| && rest[i].name == n;
      assert fields[i + 1].name == n;
    }
  }

  /** Column i is the last one with its name (a later column of the same name wins in the map). */
  predicate LastNamed(fields: seq<Field>, i: nat)
    requires i < |fields|
  {
    forall j :: i < j < |fields| ==> fields[j].name != fields[i].name
  }

  /**
   * The row `string2Entry` builds from the first n literals, column by
   * column; the first literal that does not read fails it.
   */
  function RowPrefix(fields: seq<Field>, values: seq<string>, n: nat): Result<Entry>
    requires n <= |fields| == |values|
  {
    if n == 0 then Ok(map[])
    else
      var pre := RowPrefix(fields, values, n - 1);
      if pre.Err? then pre
      else
        var v := String2Value(fields[n - 1].fieldType, values[n - 1]);
        if v.Err? then Err(v.error) else Ok(pre.value[fields[n - 1].name := v.value])
  }

  /**
   * `string2Entry`: one literal per column, each read in its column's type;
   * a count that differs from the number of columns is InvalidValuesException.
   */
  function Row(fields: seq<Field>, values: seq<string>): Result<Entry>
  {
    if |values| != |fields| then Err(InvalidValues) else RowPrefix(fields, values, |values|)
  }

  /** A prefix of the row fails exactly when one of its literals does not read. */
  lemma {:induction false} RowPrefixFails(fields: seq<Field>, values: seq<string>, n: nat)
    requires n <= |fields| == |values|
    ensures RowPrefix(fields, values, n).Err? <==>
            exists i :: 0 <= i < n && String2Value(fields[i].fieldType, values[i]).Err?
    ensures RowPrefix(fields, values, n).Err? ==> RowPrefix(fields, values, n).error == NumberFormat
  {
    if n > 0 {
      RowPrefixFails(fields, values, n - 1);
      if String2Value(fields[n - 1].fieldType, values[n - 1]).Err? {
        assert 0 <= n - 1 < n;
      }
    }
  }

  /** A prefix of the row that reads holds exactly the names of its columns. */
  lemma {:induction false} RowPrefixKeys(fields: seq<Field>, values: seq<string>, n: nat)
    requires n <= |fields| == |values| && RowPrefix(fields, values, n).Ok?
    ensures RowPrefix(fields, values, n).value.Keys == Names(fields[..n])
  {
    if n > 0 {
      RowPrefixKeys(fields, values, n - 1);
      assert fields[..n] == fields[..n - 1] + [fields[n - 1]];
      NamesSnoc(fields[..n - 1], fields[n - 1]);
    } else {
      assert fields[..0] == [];
    }
  }

  /** In a prefix of the row that reads, a column holds the value of the last literal of its name. */
  lemma {:induction false} RowPrefixAt(fields: seq<Field>, values: seq<string>, n: nat, j: nat)
    requires j < n <= |fields| == |values| && RowPrefix(fields, values, n).Ok?
    requires LastNamed(fields[..n], j)
    ensures String2Value(fields[j].fieldType, values[j]).Ok?
    ensures fields[j].name in RowPrefix(fields, values, n).value
    ensures RowPrefix(fields, values, n).value[fields[j].name] == String2Value(fields[j].fieldType, values[j]).value
  {
    if j < n - 1 {
      assert fields[..n][n - 1] == fields[n - 1];
      assert fields[n - 1].name != fields[j].name;
      var all, pre := fields[..n], fields[..n - 1];
      assert LastNamed(pre, j) by {
        forall k | j < k < n - 1 ensures pre[k].name != pre[j].name {
          assert all[k] == pre[k] && all[j] == pre[j];
        }
      }
      RowPrefixAt(fields, values, n - 1, j);
    }
  }

  /**
   * What `string2Entry` gives: InvalidValuesException exactly when the
   * counts differ, otherwise NumberFormatException exactly when a literal
   * does not read in its column's type, otherwise a row with every column
   * name, each holding its literal's value (a later column of the same
   * name overwrites an earlier one).
   */
  lemma RowMeaning(fields: seq<Field>, values: seq<string>)
    ensures var r := Row(fields, values);
            (r.Err? <==> |values| != |fields| ||
                         exists i :: 0 <= i < |values| && String2Value(fields[i].fieldType, values[i]).Err?) &&
            (r.Err? ==> (r.error == InvalidValues <==> |values| != |fields|)) &&
            (r.Err? ==> r.error == InvalidValues || r.error == NumberFormat) &&
            (r.Ok? ==> r.value.Keys == Names(fields) &&
                       forall i :: 0 <= i < |fields| && LastNamed(fields, i) ==>
                         r.value[fields[i].name] == String2Value(fields[i].fieldType, values[i]).value)
  {
    if |values| == |fields| {
      RowPrefixFails(fields, values, |values|);
      if Row(fields, values).Ok? {
        assert fields[..|values|] == fields;
        RowPrefixKeys(fields, values, |values|);
        forall i | 0 <= i < |fields| && LastNamed(fields, i)
          ensures String2Value(fields[i].fieldType, values[i]).Ok?
          ensures Row(fields, values).value[fields[i].name] == String2Value(fields[i].fieldType, values[i]).value
        {
          RowPrefixAt(fields, values, |values|, i);
        }
      }
    }
  }

  /** `string2Entry`. */
  method String2Entry(fields: seq<Field>, values: seq<string>) returns (r: Result<Entry>)
    ensures r == Row(fields, values)
  {
    if |values| != |fields| {
      return Err(InvalidValues);
    }
    var entry: Entry := map[];
    for i := 0 to |values|
      invariant RowPrefix(fields, values, i) == Ok(entry)
    {
      var v := String2Value(fields[i].fieldType, values[i]);
      if v.Err? {
        RowPrefixErr(fields, values, i + 1);
        return Err(v.error);
      }
      entry := entry[fields[i].name := v.value];
    }
    r := Ok(entry);
  }

  /** Once a prefix fails, the whole row fails the same way. */
  lemma {:induction false} RowPrefixErr(fields: seq<Field>, values: seq<string>, n: nat)
    requires n <= |fields| == |values| && RowPrefix(fields, values, n).Err?
    ensures RowPrefix(fields, values, |values|) == RowPrefix(fields, values, n)
    decreases |values| - n
  {
    if n < |values| {
      RowPrefixErr(fields, values, n + 1);
    }
  }

  /**
   * `value2Raw` of one column: a value of another class than the column's
   * type fails the cast, a null value fails, and so does an unknown type,
   * whose null bytes `concat` dereferences.
   */
  function FieldRaw(f: Field, v: Option<Value>): (r: Result<seq<Byte>>)
    ensures r.Ok? <==> f.fieldType in FIELD_TYPES && v.Some? && HasType(v.value, f.fieldType)
    ensures r.Ok? ==> r.value == Value2Raw(v.value)
    ensures r.Err? ==> r.error in {NullPointer, ClassCast}
  {
    if f.fieldType !in FIELD_TYPES || v.None? then Err(NullPointer)
    else if !HasType(v.value, f.fieldType) then Err(ClassCast)
    else Ok(Value2Raw(v.value))
  }

  /** `entry2Raw`: the columns' bytes in column order; the first failing column's error. */
  function EntryBytes(fields: seq<Field>, e: Entry): (r: Result<seq<Byte>>)
    ensures r.Ok? <==> forall i :: 0 <= i < |fields| ==> FieldRaw(fields[i], Get(e, fields[i].name)).Ok?
  {
    if |fields| == 0 then Ok([])
    else
      var p := FieldRaw(fields[0], Get(e, fields[0].name));
      if p.Err? then Err(p.error)
      else
        var rest := EntryBytes(fields[1..], e);
        if rest.Err? then rest
        else
          assert forall i :: 1 <= i < |fields| ==> fields[i] == fields[1..][i - 1];
          Ok(p.value + rest.value)
  }

  /** `a` followed by the outcome `b`. */
  function Then(a: seq<Byte>, b: Result<seq<Byte>>): Result<seq<Byte>>
  {
    if b.Err? then b else Ok(a + b.value)
  }

  lemma ThenEmpty(b: Result<seq<Byte>>)
    ensures Then([], b) == b
  {
    if b.Ok? { assert [] + b.value == b.value; }
  }

  /** One column of `entry2Raw`: a failing column ends it, a good one moves its bytes to the front. */
  lemma ThenStep(raw: seq<Byte>, fs: seq<Field>, e: Entry)
    requires |fs| > 0
    ensures var p := FieldRaw(fs[0], Get(e, fs[0].name));
            if p.Err? then EntryBytes(fs, e) == Err(p.error)
            else Then(raw, EntryBytes(fs, e)) == Then(raw + p.value, EntryBytes(fs[1..], e))
  {
    var p := FieldRaw(fs[0], Get(e, fs[0].name));
    EntryBytesFirst(fs, e);
    if p.Ok? {
      var rest := EntryBytes(fs[1..], e);
      if rest.Ok? {
        assert raw + (p.value + rest.value) == (raw + p.value) + rest.value;
      }
    }
  }

  /** `entry2Raw` on a non-empty column list: the first column's bytes, then the rest's. */
  lemma EntryBytesFirst(fs: seq<Field>, e: Entry)
    requires |fs| > 0
    ensures var p := FieldRaw(fs[0], Get(e, fs[0].name));
            EntryBytes(fs, e) == if p.Err? then Err(p.error) else Then(p.value, EntryBytes(fs[1..], e))
  {
  }

  /** `entry2Raw`. */
  method Entry2Raw(fields: seq<Field>, e: Entry) returns (r: Result<seq<Byte>>)
    ensures r == EntryBytes(fields, e)
  {
    var raw: seq<Byte> := [];
    assert fields[0..] == fields;
    ThenEmpty(EntryBytes(fields, e));
    for i := 0 to |fields|
      invariant Then(raw, EntryBytes(fields[i..], e)) == EntryBytes(fields, e)
    {
      assert fields[i..][1..] == fields[i + 1..];
      ThenStep(raw, fields[i..], e);
      var p := FieldRaw(fields[i], Get(e, fields[i].name));
      if p.Err? {
        return Err(p.error);
      }
      raw := raw + p.value;
    }
    assert fields[|fields|..] == [];
    assert raw + [] == raw;
    r := Ok(raw);
  }

  /**
   * `raw2Entry` from byte `pos` on: each column reads its value from the
   * bytes left, and the next column starts after the bytes it took; a
   * start beyond the end fails `copyOfRange`.
   */
  function Decode(fields: seq<Field>, raw: seq<Byte>, pos: nat, acc: Entry): (r: Result<Entry>)
    ensures r.Err? ==> r.error == OutOfBounds
    decreases |fields|
  {
    if |fields| == 0 then Ok(acc)
    else if pos > |raw| then Err(OutOfBounds)
    else
      var pv := ParseValue(fields[0].fieldType, raw[pos..]);
      if pv.Err? then Err(pv.error)
      else Decode(fields[1..], raw, pos + pv.value.shift, acc[fields[0].name := pv.value.v])
  }

  /** `raw2Entry`. */
  method Raw2Entry(fields: seq<Field>, raw: seq<Byte>) returns (r: Result<Entry>)
    ensures r == Decode(fields, raw, 0, map[])
  {
    var pos: nat := 0;
    var entry: Entry := map[];
    for i := 0 to |fields|
      invariant Decode(fields[i..], raw, pos, entry) == Decode(fields, raw, 0, map[])
    {
      assert fields[i..][1..] == fields[i + 1..];
      if pos > |raw| {
        return Err(OutOfBounds);
      }
      var pv := ParseValue(fields[i].fieldType, raw[pos..]);
      if pv.Err? {
        return Err(pv.error);
      }
      entry := entry[fields[i].name := pv.value.v];
      pos := pos + pv.value.shift;
    }
    assert fields[|fields|..] == [];
    r := Ok(entry);
  }

  /** Every column of the row holds a storable value of the column's type. */
  predicate WellTyped(fields: seq<Field>, e: Entry)
  {
    forall i :: 0 <= i < |fields| ==>
      fields[i].name in e && e[fields[i].name].Some? &&
      HasType(e[fields[i].name].value, fields[i].fieldType) && StorableValue(e[fields[i].name].value)
  }

  /** The values of the row for the given names. */
  function Restrict(e: Entry, names: set<string>): Entry
  {
    map n | n in e && n in names :: e[n]
  }

  /** One column of `Decode`. */
  lemma DecodeStep(fields: seq<Field>, raw: seq<Byte>, pos: nat, acc: Entry, pv: ParseValueRes)
    requires |fields| > 0 && pos <= |raw|
    requires ParseValue(fields[0].fieldType, raw[pos..]) == Ok(pv)
    ensures Decode(fields, raw, pos, acc) == Decode(fields[1..], raw, pos + pv.shift, acc[fields[0].name := pv.v])
  {
  }

  /** The bytes of a well-typed row: its first column's, then the rest's. */
  lemma EntryBytesCons(fields: seq<Field>, e: Entry)
    requires |fields| > 0 && WellTyped(fields, e)
    ensures WellTyped(fields[1..], e)
    ensures EntryBytes(fields, e).Ok? && EntryBytes(fields[1..], e).Ok?
    ensures EntryBytes(fields, e).value == Value2Raw(e[fields[0].name].value) + EntryBytes(fields[1..], e).value
  {
    var rest := fields[1..];
    assert forall i :: 0 <= i < |rest| ==> rest[i] == fields[i + 1];
  }

  lemma BytesAssoc(a: seq<Byte>, b: seq<Byte>, c: seq<Byte>)
    ensures a + (b + c) == a + b + c
  {
  }

  /** A value's bytes in front of the rest's: the decode of the rest, with the value added. */
  lemma DecodeCons(fields: seq<Field>, v: Value, pre: seq<Byte>, tail: seq<Byte>, acc: Entry, res: Result<Entry>)
    requires |fields| > 0 && HasType(v, fields[0].fieldType) && StorableValue(v)
    requires Decode(fields[1..], pre + Value2Raw(v) + tail, |pre + Value2Raw(v)|, acc[fields[0].name := Some(v)]) == res
    ensures Decode(fields, pre + (Value2Raw(v) + tail), |pre|, acc) == res
  {
    var raw := pre + Value2Raw(v) + tail;
    BytesAssoc(pre, Value2Raw(v), tail);
    DecodeValue(fields, v, pre, tail, acc);
    DecodeSame(fields[1..], raw, raw, |pre| + |Value2Raw(v)|, |pre + Value2Raw(v)|, acc[fields[0].name := Some(v)]);
  }

  /** The first column read from a value's bytes followed by anything. */
  lemma DecodeValue(fields: seq<Field>, v: Value, pre: seq<Byte>, tail: seq<Byte>, acc: Entry)
    requires |fields| > 0 && HasType(v, fields[0].fieldType) && StorableValue(v)
    ensures var raw := pre + Value2Raw(v) + tail;
            Decode(fields, raw, |pre|, acc) == Decode(fields[1..], raw, |pre| + |Value2Raw(v)|, acc[fields[0].name := Some(v)])
  {
    ParseAfter(fields[0].fieldType, v, pre, tail);
    DecodeStep(fields, pre + Value2Raw(v) + tail, |pre|, acc, ParseValueRes(Some(v), |Value2Raw(v)|));
  }

  /** A value's bytes parse back after any prefix, whatever follows them. */
  lemma ParseAfter(fieldType: string, v: Value, pre: seq<Byte>, tail: seq<Byte>)
    requires HasType(v, fieldType) && StorableValue(v)
    ensures ParseValue(fieldType, (pre + Value2Raw(v) + tail)[|pre|..]) == Ok(ParseValueRes(Some(v), |Value2Raw(v)|))
  {
    assert (pre + Value2Raw(v) + tail)[|pre|..] == Value2Raw(v) + tail;
    ValueRoundTrip(v, fieldType, tail);
  }

  /** `Decode` of equal bytes from equal positions. */
  lemma DecodeSame(fields: seq<Field>, raw: seq<Byte>, raw': seq<Byte>, pos: nat, pos': nat, acc: Entry)
    requires raw == raw' && pos == pos'
    ensures Decode(fields, raw, pos, acc) == Decode(fields, raw', pos', acc)
  {
  }

  lemma RestrictCons(fields: seq<Field>, e: Entry, acc: Entry)
    requires |fields| > 0 && fields[0].name in e
    ensures acc[fields[0].name := e[fields[0].name]] + Restrict(e, Names(fields[1..])) == acc + Restrict(e, Names(fields))
  {
    NamesCons(fields);
  }

  lemma {:induction false} DecodeEntryBytes(fields: seq<Field>, e: Entry, pre: seq<Byte>, acc: Entry)
    requires WellTyped(fields, e)
    ensures EntryBytes(fields, e).Ok?
    ensures Decode(fields, pre + EntryBytes(fields, e).value, |pre|, acc) == Ok(acc + Restrict(e, Names(fields)))
    decreases |fields|
  {
    if |fields| == 0 {
      assert Restrict(e, Names(fields)) == map[];
      assert acc + map[] == acc;
    } else {
      var v := e[fields[0].name].value;
      var tail := EntryBytes(fields[1..], e).value;
      var acc' := acc[fields[0].name := Some(v)];
      EntryBytesCons(fields, e);
      DecodeEntryBytes(fields[1..], e, pre + Value2Raw(v), acc');
      DecodeCons(fields, v, pre, tail, acc, Ok(acc' + Restrict(e, Names(fields[1..]))));
      assert e[fields[0].name] == Some(v);
      RestrictCons(fields, e, acc);
    }
  }

  /** A row written by `entry2Raw` reads back by `raw2Entry` as the same row. */
  lemma EntryRoundTrip(fields: seq<Field>, e: Entry)
    requires WellTyped(fields, e) && e.Keys == Names(fields)
    ensures EntryBytes(fields, e).Ok?
    ensures Decode(fields, EntryBytes(fields, e).value, 0, map[]) == Ok(e)
  {
    DecodeEntryBytes(fields, e, [], map[]);
    assert [] + EntryBytes(fields, e).value == EntryBytes(fields, e).value;
    assert map[] + Restrict(e, Names(fields)) == e;
  }

  // ---------------------------------------------------------------------
  // Where clauses.

  /** The range a statement without `where` scans on the first indexed column, as written. */
  const SCAN_AS_WRITTEN: Range := Range(0, LONG_MAX)

  /** The whole key space. */
  const SCAN: Range := Range(LONG_MIN, LONG_MAX)

  /** As written, the scan of a statement without `where` never reaches a negative key. */
  lemma ScanAsWrittenMissesNegative()
    ensures !Selects(SCAN_AS_WRITTEN, -1)
    ensures forall k: I64 :: Selects(SCAN, k)
  {
  }

  /** The first indexed column from position `from` on. */
  function FirstIndexed(fields: seq<Field>, from: nat): (r: Option<nat>)
    ensures r.Some? ==> from <= r.value < |fields| && IsIndexed(fields[r.value]) &&
                        forall j :: from <= j < r.value ==> !IsIndexed(fields[j])
    ensures r.None? ==> forall j :: from <= j < |fields| ==> !IsIndexed(fields[j])
    decreases |fields| - from
  {
    if from >= |fields| then None
    else if IsIndexed(fields[from]) then Some(from)
    else FirstIndexed(fields, from + 1)
  }

  /** The first column named `name` from position `from` on. */
  function FirstNamed(fields: seq<Field>, name: string, from: nat): (r: Option<nat>)
    ensures r.Some? ==> from <= r.value < |fields| && fields[r.value].name == name &&
                        forall j :: from <= j < r.value ==> fields[j].name != name
    ensures r.None? ==> forall j :: from <= j < |fields| ==> fields[j].name != name
    decreases |fields| - from
  {
    if from >= |fields| then None
    else if fields[from].name == name then Some(from)
    else FirstNamed(fields, name, from + 1)
  }

  function Min(a: I64, b: I64): I64 { if a < b then a else b }

  /** The range `and` keeps: the keys of both. */
  function Intersect(a: Range, b: Range): (r: Range)
    ensures forall k :: Selects(r, k) <==> Selects(a, k) && Selects(b, k)
  {
    Range(if a.left < b.left then b.left else a.left, Min(a.right, b.right))
  }

  /**
   * `calWhere` on column `f`: one range for a single condition and for
   * `and` (the two ranges intersected), two for `or`; any other logic
   * operator is InvalidLogOpException. Both literals are read in the type
   * of `f`, the column the first condition names.
   */
  function CalWhere(f: Field, w: SqlParser.Where, hash: string -> I64): (r: Result<seq<Range>>)
    ensures w.logicOp != "" && w.logicOp != "and" && w.logicOp != "or" ==> r == Err(InvalidLogOp)
    ensures r.Ok? ==> |r.value| == (if w.logicOp == "or" then 2 else 1)
    ensures r.Err? ==> r.error in {InvalidLogOp, NumberFormat, NullPointer}
  {
    if w.logicOp != "" && w.logicOp != "and" && w.logicOp != "or" then Err(InvalidLogOp)
    else
      var a := CalExpFixed(f.fieldType, w.exp1.op, w.exp1.value, hash);
      if a.Err? then Err(a.error)
      else if w.logicOp == "" then Ok([a.value])
      else if w.exp2.None? then Err(NullPointer)
      else
        var b := CalExpFixed(f.fieldType, w.exp2.value.op, w.exp2.value.value, hash);
        if b.Err? then Err(b.error)
        else if w.logicOp == "or" then Ok([a.value, b.value])
        else Ok([Intersect(a.value, b.value)])
  }

  predicate IsCmpOp(op: string)
  {
    op == "=" || op == "<" || op == ">"
  }

  /** A key satisfies one condition: it compares as asked with the key of the literal. */
  predicate Holds(f: Field, e: SqlParser.SingleExp, k: I64, hash: string -> I64)
  {
    var obj := String2Value(f.fieldType, e.value);
    obj.Ok? && obj.value.Some? && Compares(e.op, k, Value2UidFixed(obj.value.value, hash))
  }

  /** A key satisfies the clause. */
  predicate Satisfies(f: Field, w: SqlParser.Where, k: I64, hash: string -> I64)
  {
    if w.logicOp == "" then Holds(f, w.exp1, k, hash)
    else if w.exp2.None? then false
    else if w.logicOp == "and" then Holds(f, w.exp1, k, hash) && Holds(f, w.exp2.value, k, hash)
    else Holds(f, w.exp1, k, hash) || Holds(f, w.exp2.value, k, hash)
  }

  /** Some range of the list selects the key. */
  predicate AnySelects(rs: seq<Range>, k: int)
  {
    exists i :: 0 <= i < |rs| && Selects(rs[i], k)
  }

  /** The ranges of `calWhere` select exactly the keys that satisfy the clause. */
  lemma CalWhereSelects(f: Field, w: SqlParser.Where, hash: string -> I64, k: I64)
    requires f.fieldType in FIELD_TYPES
    requires IsCmpOp(w.exp1.op) && (w.exp2.Some? ==> IsCmpOp(w.exp2.value.op))
    ensures var r := CalWhere(f, w, hash);
            r.Ok? ==> (AnySelects(r.value, k) <==> Satisfies(f, w, k, hash))
  {
    var r := CalWhere(f, w, hash);
    if r.Ok? {
      var o1 := String2Value(f.fieldType, w.exp1.value);
      var a := KeyRangeFixed(w.exp1.op, Value2UidFixed(o1.value.value, hash));
      assert CalExpFixed(f.fieldType, w.exp1.op, w.exp1.value, hash) == Ok(a);
      KeyRangeFixedSelects(w.exp1.op, Value2UidFixed(o1.value.value, hash), k);
      assert Selects(a, k) <==> Holds(f, w.exp1, k, hash);
      if w.logicOp != "" {
        var o2 := String2Value(f.fieldType, w.exp2.value.value);
        var b := KeyRangeFixed(w.exp2.value.op, Value2UidFixed(o2.value.value, hash));
        assert CalExpFixed(f.fieldType, w.exp2.value.op, w.exp2.value.value, hash) == Ok(b);
        KeyRangeFixedSelects(w.exp2.value.op, Value2UidFixed(o2.value.value, hash), k);
        assert Selects(b, k) <==> Holds(f, w.exp2.value, k, hash);
        if w.logicOp == "or" {
          assert r.value == [a, b];
          assert AnySelects(r.value, k) <==> Selects(a, k) || Selects(b, k) by {
            if AnySelects(r.value, k) {
              var i :| 0 <= i < |r.value| && Selects(r.value[i], k);
              assert i == 0 || i == 1;
            }
            if Selects(a, k) { assert Selects(r.value[0], k); }
            if Selects(b, k) { assert Selects(r.value[1], k); }
          }
        } else {
          assert r.value == [Intersect(a, b)];
          assert AnySelects(r.value, k) <==> Selects(Intersect(a, b), k) by {
            if Selects(Intersect(a, b), k) { assert Selects(r.value[0], k); }
          }
        }
      } else {
        assert r.value == [a];
        assert AnySelects(r.value, k) <==> Selects(a, k) by {
          if Selects(a, k) { assert Selects(r.value[0], k); }
        }
      }
    }
  }

  /** Which column's index a statement reads, and the ranges it reads. */
  datatype Plan = Plan(field: nat, ranges: seq<Range>)

  /**
   * `parseWhere` up to the searches: without `where`, the whole key space
   * of the first indexed column (TableNoIndexException when none is); with
   * `where`, the first column named by its first condition, which must
   * exist (FieldNotFoundException) and be indexed (FieldNotIndexedException).
   */
  function ParseWhere(fields: seq<Field>, where: Option<SqlParser.Where>, hash: string -> I64): (r: Result<Plan>)
    ensures r.Ok? ==> r.value.field < |fields| && IsIndexed(fields[r.value.field]) && 1 <= |r.value.ranges| <= 2
    ensures where.None? ==> (r.Err? <==> forall j :: 0 <= j < |fields| ==> !IsIndexed(fields[j]))
    ensures where.None? && r.Err? ==> r.error == TableNoIndex
    ensures where.None? && r.Ok? ==> r.value.ranges == [SCAN] && forall j :: 0 <= j < r.value.field ==> !IsIndexed(fields[j])
    ensures where.Some? && r.Ok? ==>
              (fields[r.value.field].name == where.value.exp1.field &&
               forall j :: 0 <= j < r.value.field ==> fields[j].name != where.value.exp1.field)
    ensures where.Some? && (forall j :: 0 <= j < |fields| ==> fields[j].name != where.value.exp1.field) ==> r == Err(FieldNotFound)
    ensures where.Some? && r == Err(FieldNotIndexed) ==>
              exists j :: 0 <= j < |fields| && fields[j].name == where.value.exp1.field && !IsIndexed(fields[j])
  {
    if where.None? then
      var i := FirstIndexed(fields, 0);
      if i.None? then Err(TableNoIndex) else Ok(Plan(i.value, [SCAN]))
    else
      var i := FirstNamed(fields, where.value.exp1.field, 0);
      if i.None? then Err(FieldNotFound)
      else if !IsIndexed(fields[i.value]) then Err(FieldNotIndexed)
      else
        var rs := CalWhere(fields[i.value], where.value, hash);
        if rs.Err? then Err(rs.error) else Ok(Plan(i.value, rs.value))
  }

  // ---------------------------------------------------------------------
  // The rows and index entries the table works on.

  /** An entry of a column tree: `key` leads to row `uid`. */
  datatype IndexEntry = IndexEntry(tree: I64, key: I64, uid: nat)

  /** `searchRange` of tree `tree`: the uids of its entries whose key the range selects. */
  function SearchIn(keys: seq<IndexEntry>, tree: I64, r: Range): (us: seq<nat>)
    ensures forall u :: u in us <==>
              exists i :: 0 <= i < |keys| && keys[i].tree == tree && Selects(r, keys[i].key) && keys[i].uid == u
  {
    if |keys| == 0 then []
    else
      var last := keys[|keys| - 1];
      var pre := SearchIn(keys[..|keys| - 1], tree, r);
      assert forall i :: 0 <= i < |keys| - 1 ==> keys[..|keys| - 1][i] == keys[i];
      pre + (if last.tree == tree && Selects(r, last.key) then [last.uid] else [])
  }

  /** The uids `parseWhere` returns: the searches of the plan, one after the other. */
  function PlanUids(keys: seq<IndexEntry>, fields: seq<Field>, p: Plan): (us: seq<nat>)
    requires p.field < |fields| && 1 <= |p.ranges| <= 2
    ensures forall u :: u in us <==>
              exists i :: 0 <= i < |keys| && keys[i].tree == fields[p.field].index &&
                          AnySelects(p.ranges, keys[i].key) && keys[i].uid == u
  {
    var tree := fields[p.field].index;
    var a := SearchIn(keys, tree, p.ranges[0]);
    var b := if |p.ranges| == 2 then SearchIn(keys, tree, p.ranges[1]) else [];
    a + b
  }

  /** `parseWhere`: the uids of the rows the statement touches, possibly repeated. */
  function Matches(fields: seq<Field>, hash: string -> I64, keys: seq<IndexEntry>, where: Option<SqlParser.Where>): Result<seq<nat>>
  {
    var p := ParseWhere(fields, where, hash);
    if p.Err? then Err(p.error) else Ok(PlanUids(keys, fields, p.value))
  }

  /** The elements of a sequence. */
  function Elems(us: seq<nat>): set<nat>
  {
    set u | u in us
  }

  /**
   * The rows visible to the transaction at work and the entries of the
   * column trees: `read` gives a visible row, `delete` hides one and says
   * whether it was visible, `insert` adds a row under a new uid.
   */
  class RowStore {
    var rows: map<nat, seq<Byte>>
    var keys: seq<IndexEntry>
    var next: nat

    ghost predicate Valid()
      reads this
    {
      (forall u :: u in rows ==> u < next) &&
      (forall i :: 0 <= i < |keys| ==> keys[i].uid < next)
    }

    constructor ()
      ensures Valid() && rows == map[] && keys == [] && next == 1
    {
      rows := map[];
      keys := [];
      next := 1;
    }

    method Read(uid: nat) returns (raw: Option<seq<Byte>>)
      ensures raw == if uid in rows then Some(rows[uid]) else None
    {
      raw := if uid in rows then Some(rows[uid]) else None;
    }

    method Delete(uid: nat) returns (done: bool)
      requires Valid()
      modifies this`rows
      ensures Valid()
      ensures done <==> uid in old(rows)
      ensures rows == old(rows) - {uid}
    {
      done := uid in rows;
      rows := rows - {uid};
    }

    method Insert(raw: seq<Byte>) returns (uid: nat)
      requires Valid()
      modifies this`rows, this`next
      ensures Valid()
      ensures uid == old(next) && uid !in old(rows) && next == old(next) + 1
      ensures rows == old(rows)[uid := raw]
    {
      uid := next;
      rows := rows[uid := raw];
      next := next + 1;
    }

    method AddKey(tree: I64, key: I64, uid: nat)
      requires Valid() && uid < next
      modifies this`keys
      ensures Valid()
      ensures keys == old(keys) + [IndexEntry(tree, key, uid)]
    {
      keys := keys + [IndexEntry(tree, key, uid)];
    }
  }

  // ---------------------------------------------------------------------
  // The row operations.

  /** No two columns share a name. */
  predicate DistinctNames(fields: seq<Field>)
  {
    forall i, j :: 0 <= i < j < |fields| ==> fields[i].name != fields[j].name
  }

  /** Every column has a later (or the same) column of its name that is the last one. */
  lemma {:induction false} LastOccurrence(fields: seq<Field>, i: nat)
    requires i < |fields|
    ensures exists k :: i <= k < |fields| && fields[k].name == fields[i].name && LastNamed(fields, k)
    decreases |fields| - i
  {
    if !LastNamed(fields, i) {
      var j :| i < j < |fields| && fields[j].name == fields[i].name;
      LastOccurrence(fields, j);
    }
  }

  /** The key column `f` gives the row: its value's key (0 for a null, which a stored row never holds). */
  function KeyOf(f: Field, e: Entry, hash: string -> I64): I64
  {
    var v := Get(e, f.name);
    if v.Some? then Value2UidFixed(v.value, hash) else 0
  }

  /** `update`'s rewrite of one row as written: the literal goes into the row as text. */
  function RewriteAsWritten(fields: seq<Field>, raw: seq<Byte>, name: string, literal: string): Result<seq<Byte>>
  {
    var e := Decode(fields, raw, 0, map[]);
    if e.Err? then Err(e.error) else EntryBytes(fields, e.value[name := Some(Str(literal))])
  }

  /** The rewrite of one row with the value the literal denotes in the column's type. */
  function Rewrite(fields: seq<Field>, raw: seq<Byte>, name: string, v: Option<Value>): Result<seq<Byte>>
  {
    var e := Decode(fields, raw, 0, map[]);
    if e.Err? then Err(e.error) else EntryBytes(fields, e.value[name := v])
  }

  /** As written, updating a numeric column fails the cast, after the old row was already deleted. */
  lemma UpdateAsWrittenCastFails()
    ensures RewriteAsWritten([Field("id", "int32", 7)], IntToBytes(1), "id", "2") == Err(ClassCast)
    ensures Rewrite([Field("id", "int32", 7)], IntToBytes(1), "id", String2Value("int32", "2").value) == Ok(IntToBytes(2))
  {
    var fields := [Field("id", "int32", 7)];
    var raw := IntToBytes(1);
    assert raw[0..] == raw;
    assert CopyOf(raw, 4) == raw;
    IntRoundTrip(1);
    assert ParseValue("int32", raw[0..]) == Ok(ParseValueRes(Some(Int32(1)), 4));
    assert fields[1..] == [];
    assert Decode(fields, raw, 0, map[]) == Ok(map["id" := Some(Int32(1))]);
    assert DigitChar(2) == '2';
    assert ShowInt(2) == "2";
    ShowParseRoundTrip(2, -TWO_31, TWO_31 - 1);
    assert String2Value("int32", "2") == Ok(Some(Int32(2)));
    var e := map["id" := Some(Int32(1))]["id" := Some(Int32(2))];
    assert FieldRaw(fields[0], Get(e, "id")) == Ok(IntToBytes(2));
    assert EntryBytes(fields[1..], e) == Ok([]);
    assert IntToBytes(2) + [] == IntToBytes(2);
  }

  /** A rewritten row reads back as the old row with the one column changed. */
  lemma RewriteChangesOneColumn(fields: seq<Field>, e: Entry, name: string, v: Value)
    requires WellTyped(fields, e) && e.Keys == Names(fields)
    requires name in e && StorableValue(v)
    requires forall i :: 0 <= i < |fields| && fields[i].name == name ==> HasType(v, fields[i].fieldType)
    ensures EntryBytes(fields, e).Ok?
    ensures var r := Rewrite(fields, EntryBytes(fields, e).value, name, Some(v));
            r.Ok? && Decode(fields, r.value, 0, map[]) == Ok(e[name := Some(v)])
  {
    EntryRoundTrip(fields, e);
    var e' := e[name := Some(v)];
    assert WellTyped(fields, e');
    EntryRoundTrip(fields, e');
  }

  /** The indexed columns' entries for a new row. */
  function IndexEntries(fields: seq<Field>, e: Entry, hash: string -> I64, uid: nat): seq<IndexEntry>
  {
    if |fields| == 0 then []
    else
      var f := fields[|fields| - 1];
      IndexEntries(fields[..|fields| - 1], e, hash, uid) +
      (if IsIndexed(f) then [IndexEntry(f.index, KeyOf(f, e, hash), uid)] else [])
  }

  /** Every indexed column has an entry for the new row, under the key of the row's value. */
  lemma {:induction false} IndexEntriesCover(fields: seq<Field>, e: Entry, hash: string -> I64, uid: nat)
    ensures forall i :: 0 <= i < |fields| && IsIndexed(fields[i]) ==>
              IndexEntry(fields[i].index, KeyOf(fields[i], e, hash), uid) in IndexEntries(fields, e, hash, uid)
    ensures forall x :: x in IndexEntries(fields, e, hash, uid) ==> x.uid == uid
  {
    if |fields| > 0 {
      var pre := fields[..|fields| - 1];
      IndexEntriesCover(pre, e, hash, uid);
      assert forall i :: 0 <= i < |pre| ==> pre[i] == fields[i];
    }
  }

  /** The rows the uids lead to, read back, in order; uids of rows not visible are skipped. */
  function ReadRows(fields: seq<Field>, rows: map<nat, seq<Byte>>, uids: seq<nat>): Result<seq<Entry>>
  {
    if |uids| == 0 then Ok([])
    else
      var pre := ReadRows(fields, rows, uids[..|uids| - 1]);
      var u := uids[|uids| - 1];
      if pre.Err? || u !in rows then pre
      else
        var e := Decode(fields, rows[u], 0, map[]);
        if e.Err? then Err(e.error) else Ok(pre.value + [e.value])
  }

  lemma ElemsSnoc(uids: seq<nat>, i: nat)
    requires i < |uids|
    ensures Elems(uids[..i + 1]) == Elems(uids[..i]) + {uids[i]}
  {
    assert uids[..i + 1] == uids[..i] + [uids[i]];
  }

  lemma MapMinus(m: map<nat, seq<Byte>>, a: set<nat>, u: nat)
    ensures (m - a) - {u} == m - (a + {u})
    ensures u in m - a <==> u in m && u !in a
  {
  }

  /** One more uid in a count of distinct visible uids. */
  lemma CountStep(live: set<nat>, seen: set<nat>, u: nat)
    ensures |live * (seen + {u})| == |live * seen| + (if u in live && u !in seen then 1 else 0)
  {
    if u in live && u !in seen {
      assert live * (seen + {u}) == (live * seen) + {u};
    } else {
      assert live * (seen + {u}) == live * seen;
    }
  }

  /** A table: its columns, and the rows and column trees it works on. */
  class Table {
    const name: string
    const nextUid: I64
    const fields: seq<Field>
    const hash: string -> I64
    const store: RowStore

    constructor (name: string, nextUid: I64, fields: seq<Field>, hash: string -> I64, store: RowStore)
      ensures this.name == name && this.nextUid == nextUid && this.fields == fields
      ensures this.hash == hash && this.store == store
    {
      this.name := name;
      this.nextUid := nextUid;
      this.fields := fields;
      this.hash := hash;
      this.store := store;
    }

    /**
     * `insert`: the literals become a row, the row is stored under a new
     * uid, and every indexed column's tree gets the row's key. A failure
     * changes nothing.
     */
    method Insert(values: seq<string>) returns (r: Result<()>)
      requires store.Valid()
      modifies store
      ensures store.Valid()
      ensures var e := Row(fields, values);
              var b := if e.Ok? then EntryBytes(fields, e.value) else Err(e.error);
              (r.Ok? <==> b.Ok?) &&
              (r.Err? ==> r.error == b.error && store.rows == old(store.rows) &&
                          store.keys == old(store.keys) && store.next == old(store.next)) &&
              (r.Ok? ==> var u := old(store.next);
                         store.next == u + 1 && store.rows == old(store.rows)[u := b.value] &&
                         store.keys == old(store.keys) + IndexEntries(fields, e.value, hash, u))
    {
      var e := String2Entry(fields, values);
      if e.Err? {
        return Err(e.error);
      }
      var raw := Entry2Raw(fields, e.value);
      if raw.Err? {
        return Err(raw.error);
      }
      var uid := store.Insert(raw.value);
      InsertKeys(e.value, uid);
      r := Ok(());
    }

    /** The loop of `insert` over the indexed columns. */
    method InsertKeys(e: Entry, uid: nat)
      requires store.Valid() && uid < store.next
      modifies store`keys
      ensures store.Valid()
      ensures store.keys == old(store.keys) + IndexEntries(fields, e, hash, uid)
    {
      for i := 0 to |fields|
        invariant store.Valid()
        invariant store.keys == old(store.keys) + IndexEntries(fields[..i], e, hash, uid)
      {
        assert fields[..i + 1][..i] == fields[..i];
        if IsIndexed(fields[i]) {
          store.AddKey(fields[i].index, KeyOf(fields[i], e, hash), uid);
        }
      }
      assert fields[..|fields|] == fields;
    }

    /**
     * `read`: the rows the clause matches that the transaction sees, in
     * the order the index returns them; a uid met twice is read twice.
     */
    method Read(where: Option<SqlParser.Where>) returns (r: Result<seq<Entry>>)
      ensures var m := Matches(fields, hash, store.keys, where);
              (m.Err? ==> r == Err(m.error)) && (m.Ok? ==> r == ReadRows(fields, store.rows, m.value))
    {
      var m := Matches(fields, hash, store.keys, where);
      if m.Err? {
        return Err(m.error);
      }
      var uids := m.value;
      var out: seq<Entry> := [];
      for i := 0 to |uids|
        invariant ReadRows(fields, store.rows, uids[..i]) == Ok(out)
      {
        assert uids[..i + 1][..i] == uids[..i];
        var raw := store.Read(uids[i]);
        if raw.Some? {
          var e := Raw2Entry(fields, raw.value);
          if e.Err? {
            assert ReadRows(fields, store.rows, uids[..i + 1]) == Err(e.error);
            ReadRowsErr(fields, store.rows, uids, i + 1);
            assert uids[..|uids|] == uids;
            return Err(e.error);
          }
          out := out + [e.value];
        }
      }
      assert uids[..|uids|] == uids;
      r := Ok(out);
    }

    /**
     * `delete`: every matched row the transaction sees is deleted, and the
     * count is the number of distinct such rows (a uid met again is no
     * longer visible).
     */
    method Delete(where: SqlParser.Where) returns (r: Result<nat>)
      requires store.Valid()
      modifies store`rows
      ensures store.Valid()
      ensures var m := Matches(fields, hash, store.keys, Some(where));
              (r.Err? <==> m.Err?) && (m.Err? ==> r.error == m.error && store.rows == old(store.rows)) &&
              (m.Ok? ==> r.value == |old(store.rows).Keys * Elems(m.value)| && store.rows == old(store.rows) - Elems(m.value))
    {
      var m := Matches(fields, hash, store.keys, Some(where));
      if m.Err? {
        return Err(m.error);
      }
      var uids := m.value;
      var count: nat := 0;
      for i := 0 to |uids|
        invariant store.Valid()
        invariant count == |old(store.rows).Keys * Elems(uids[..i])|
        invariant store.rows == old(store.rows) - Elems(uids[..i])
      {
        ElemsSnoc(uids, i);
        CountStep(old(store.rows).Keys, Elems(uids[..i]), uids[i]);
        MapMinus(old(store.rows), Elems(uids[..i]), uids[i]);
        var done := store.Delete(uids[i]);
        if done {
          count := count + 1;
        }
      }
      assert uids[..|uids|] == uids;
      r := Ok(count);
    }

    /**
     * `update`: every matched row the transaction sees is deleted and
     * stored again, under a new uid, with the named column set to the
     * literal read in that column's type; the count is the number of
     * distinct such rows. The literal is read once, before any row is
     * touched (as written it goes into the row as text, see
     * `UpdateAsWrittenCastFails`). A failure while rewriting a row leaves
     * the rows handled before it rewritten.
     */
    method Update(fieldName: string, literal: string, where: Option<SqlParser.Where>) returns (r: Result<nat>)
      requires store.Valid()
      modifies store
      ensures store.Valid()
      ensures var m := Matches(fields, hash, old(store.keys), where);
              (m.Err? ==> r == Err(m.error)) &&
              (m.Ok? && FirstNamed(fields, fieldName, 0).None? ==> r == Err(FieldNotFound)) &&
              (r.Ok? ==> m.Ok? && r.value == |old(store.rows).Keys * Elems(m.value)| &&
                         store.next == old(store.next) + r.value &&
                         store.rows.Keys == (old(store.rows).Keys - Elems(m.value)) + Span(old(store.next), store.next))
      ensures r.Err? && (Matches(fields, hash, old(store.keys), where).Err? || FirstNamed(fields, fieldName, 0).None?) ==>
                store.rows == old(store.rows) && store.keys == old(store.keys) && store.next == old(store.next)
    {
      var m := Matches(fields, hash, store.keys, where);
      if m.Err? {
        return Err(m.error);
      }
      var i := FirstNamed(fields, fieldName, 0);
      if i.None? {
        return Err(FieldNotFound);
      }
      var v := String2Value(fields[i.value].fieldType, literal);
      if v.Err? {
        return Err(v.error);
      }
      var uids := m.value;
      ghost var next0 := store.next;
      ghost var live0 := store.rows.Keys;
      forall j | 0 <= j < |uids| ensures uids[j] < next0 {
        assert uids[j] in uids;
      }
      assert Span(next0, next0) == {};
      var count: nat := 0;
      for j := 0 to |uids|
        invariant store.Valid() && store.next == next0 + count
        invariant count == |live0 * Elems(uids[..j])|
        invariant store.rows.Keys == (live0 - Elems(uids[..j])) + Span(next0, store.next)
      {
        ElemsSnoc(uids, j);
        var c := UpdateOne(uids[j], fieldName, v.value, next0, live0, Elems(uids[..j]), count);
        if c.Err? {
          return Err(c.error);
        }
        count := c.value;
      }
      assert uids[..|uids|] == uids;
      r := Ok(count);
    }

    /**
     * One pass of `update`'s loop, over the rows `live0` there were at the
     * start, `seen` of which were handled: the count and the live rows after
     * row `u`.
     */
    method UpdateOne(u: nat, name: string, v: Option<Value>, ghost next0: nat, ghost live0: set<nat>, ghost seen: set<nat>, count: nat)
      returns (r: Result<nat>)
      requires store.Valid() && u < next0 && store.next == next0 + count
      requires count == |live0 * seen| && store.rows.Keys == (live0 - seen) + Span(next0, store.next)
      modifies store
      ensures store.Valid()
      ensures r.Ok? ==> store.next == next0 + r.value && r.value == |live0 * (seen + {u})| &&
                        store.rows.Keys == (live0 - (seen + {u})) + Span(next0, store.next)
    {
      CountStep(live0, seen, u);
      ghost var keys := store.rows.Keys;
      ghost var next := store.next;
      var done := RewriteRow(u, name, v);
      if done.Err? {
        return Err(done.error);
      }
      UpdateKeys(live0, seen, next0, next, keys, u, done.value, store.rows.Keys);
      r := Ok(if done.value then count + 1 else count);
    }

    /**
     * One row of `update`: a row the transaction does not see is skipped;
     * a visible one is deleted, read, changed in the one column and
     * inserted again under the next uid, with its index entries.
     */
    method RewriteRow(uid: nat, name: string, v: Option<Value>) returns (r: Result<bool>)
      requires store.Valid() && uid < store.next
      modifies store
      ensures store.Valid()
      ensures r.Ok? ==> (r.value <==> uid in old(store.rows))
      ensures r.Ok? ==> store.next == old(store.next) + (if r.value then 1 else 0)
      ensures r.Ok? ==> store.rows.Keys == (old(store.rows).Keys - {uid}) + (if r.value then {old(store.next)} else {})
    {
      var raw := store.Read(uid);
      if raw.None? {
        return Ok(false);
      }
      var gone := store.Delete(uid);
      var e := Raw2Entry(fields, raw.value);
      if e.Err? {
        return Err(e.error);
      }
      var row := e.value[name := v];
      var bytes := Entry2Raw(fields, row);
      if bytes.Err? {
        return Err(bytes.error);
      }
      var u := store.Insert(bytes.value);
      InsertKeys(row, u);
      r := Ok(true);
    }
  }

  /** The uids from `lo` up to, not including, `hi`. */
  function Span(lo: nat, hi: nat): (s: set<nat>)
    ensures forall u :: u in s <==> lo <= u < hi
    decreases hi
  {
    if hi <= lo then {} else Span(lo, hi - 1) + {hi - 1}
  }

  /**
   * The live rows after `update` rewrote row `u` (`hit`) or skipped it:
   * `u` was live exactly when it was one of the first rows not yet handled.
   */
  lemma UpdateKeys(live0: set<nat>, seen: set<nat>, next0: nat, next: nat, keys: set<nat>, u: nat, hit: bool, keys': set<nat>)
    requires u < next0 <= next && keys == (live0 - seen) + Span(next0, next)
    requires hit <==> u in keys
    requires keys' == (keys - {u}) + (if hit then {next} else {})
    ensures hit <==> u in live0 && u !in seen
    ensures keys' == (live0 - (seen + {u})) + Span(next0, next + (if hit then 1 else 0))
  {
    SpanStep(next0, next);
    assert u !in Span(next0, next);
  }

  lemma SpanStep(lo: nat, hi: nat)
    requires lo <= hi
    ensures Span(lo, hi + 1) == Span(lo, hi) + {hi}
  {
  }

  /** Once a prefix of the uids fails, the whole read fails the same way. */
  lemma {:induction false} ReadRowsErr(fields: seq<Field>, rows: map<nat, seq<Byte>>, uids: seq<nat>, n: nat)
    requires n <= |uids| && ReadRows(fields, rows, uids[..n]).Err?
    ensures ReadRows(fields, rows, uids) == ReadRows(fields, rows, uids[..n])
    decreases |uids| - n
  {
    if n < |uids| {
      assert uids[..n + 1][..n] == uids[..n];
      ReadRowsErr(fields, rows, uids, n + 1);
    } else {
      assert uids[..n] == uids;
    }
  }

  /**
   * `insert` succeeds when the literals match the columns in number and
   * type, the names are distinct and the types known.
   */
  lemma InsertSucceeds(fields: seq<Field>, values: seq<string>)
    requires |values| == |fields| && DistinctNames(fields)
    requires forall i :: 0 <= i < |fields| ==> fields[i].fieldType in FIELD_TYPES
    requires forall i :: 0 <= i < |values| ==> String2Value(fields[i].fieldType, values[i]).Ok?
    ensures Row(fields, values).Ok? && EntryBytes(fields, Row(fields, values).value).Ok?
  {
    RowMeaning(fields, values);
    var e := Row(fields, values).value;
    forall i | 0 <= i < |fields|
      ensures FieldRaw(fields[i], Get(e, fields[i].name)).Ok?
    {
      assert LastNamed(fields, i);
    }
  }

  /** `insert` fails with a column type it does not know. */
  lemma InsertNeedsKnownTypes(fields: seq<Field>, values: seq<string>, i: nat)
    requires i < |fields| && fields[i].fieldType !in FIELD_TYPES
    ensures var e := Row(fields, values);
            e.Ok? ==> EntryBytes(fields, e.value).Err?
  {
  }

  /** The row `insert` stores reads back with each column's literal. */
  lemma InsertedRowReadsBack(fields: seq<Field>, values: seq<string>)
    requires forall i :: 0 <= i < |values| ==> Storable(values[i])
    requires Row(fields, values).Ok? && EntryBytes(fields, Row(fields, values).value).Ok?
    ensures Decode(fields, EntryBytes(fields, Row(fields, values).value).value, 0, map[]) == Row(fields, values)
  {
    RowMeaning(fields, values);
    var e := Row(fields, values).value;
    forall i | 0 <= i < |fields|
      ensures fields[i].name in e && e[fields[i].name].Some? &&
              HasType(e[fields[i].name].value, fields[i].fieldType) && StorableValue(e[fields[i].name].value)
    {
      assert FieldRaw(fields[i], Get(e, fields[i].name)).Ok?;
      LastOccurrence(fields, i);
      var k :| i <= k < |fields| && fields[k].name == fields[i].name && LastNamed(fields, k);
      assert e[fields[i].name] == String2Value(fields[k].fieldType, values[k]).value;
    }
    EntryRoundTrip(fields, e);
  }

  /**
   * After `insert`, the tree of every indexed column holds the new row
   * under the key of the column's literal, so `where column = literal`
   * on that column matches the row.
   */
  lemma InsertedRowIndexed(fields: seq<Field>, values: seq<string>, hash: string -> I64, uid: nat, i: nat)
    requires Row(fields, values).Ok? && EntryBytes(fields, Row(fields, values).value).Ok?
    requires i < |fields| && IsIndexed(fields[i]) && LastNamed(fields, i)
    ensures String2Value(fields[i].fieldType, values[i]).Ok? && String2Value(fields[i].fieldType, values[i]).value.Some?
    ensures var key := Value2UidFixed(String2Value(fields[i].fieldType, values[i]).value.value, hash);
            IndexEntry(fields[i].index, key, uid) in IndexEntries(fields, Row(fields, values).value, hash, uid) &&
            uid in SearchIn(IndexEntries(fields, Row(fields, values).value, hash, uid), fields[i].index, Range(key, key))
  {
    RowMeaning(fields, values);
    var e := Row(fields, values).value;
    assert FieldRaw(fields[i], Get(e, fields[i].name)).Ok?;
    IndexEntriesCover(fields, e, hash, uid);
    var keys := IndexEntries(fields, e, hash, uid);
    var key := KeyOf(fields[i], e, hash);
    var j :| 0 <= j < |keys| && keys[j] == IndexEntry(fields[i].index, key, uid);
    assert Selects(Range(key, key), keys[j].key);
  }
}
