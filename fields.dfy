/**
 * Column rules (`Field`): the accepted column types, the index flag,
 * the stored form of a column, the conversion of literal text into typed
 * values, stored bytes and index keys, and the key range a comparison
 * selects in the column's B+ tree.
 *
 * The engine's `Parser` utility (its byte codecs) is not part of this
 * model: the integer codecs are those of `Bytes`, and the string codec is
 * the assumed `[length(4)][one byte per character]` of `StringToBytes`.
 * `Parser.str2Uid`, the hash that turns a string into an index key,
 * enters as the parameter `hash`.
 */
module FieldRules {
  import opened Bytes
  import opened Outcomes

  /** The column types a table may declare. */
  const FIELD_TYPES: set<string> := {"int32", "int64", "string"}

  /** `typeCheck`: a type outside the three accepted ones is rejected. */
  function TypeCheck(name: string): (r: Result<()>)
    ensures r.Ok? <==> name == "int32" || name == "int64" || name == "string"
    ensures r.Err? ==> r.error == InvalidField
  {
    if name in FIELD_TYPES then Ok(()) else Err(InvalidField)
  }

  /** A column: its name, its type and the boot uid of its index tree (0 when it has none). */
  datatype Field = Field(name: string, fieldType: string, index: I64)

  /** `isIndexed`. */
  predicate IsIndexed(f: Field)
  {
    f.index != 0
  }

  /**
   * `createField`: the type is checked first; an indexed column gets the
   * tree `BTree.create` made for it (`tree`), any other column index 0.
   */
  function CreateField(name: string, fieldType: string, indexed: bool, tree: I64): (r: Result<Field>)
    ensures r.Ok? <==> fieldType in FIELD_TYPES
    ensures r.Err? ==> r.error == InvalidField
    ensures r.Ok? ==> r.value.name == name && r.value.fieldType == fieldType
    ensures r.Ok? ==> (IsIndexed(r.value) <==> indexed && tree != 0)
  {
    if TypeCheck(fieldType).Err? then Err(InvalidField)
    else Ok(Field(name, fieldType, if indexed then tree else 0))
  }

  // ---------------------------------------------------------------------
  // The string codec.

  /** The characters of a string as bytes, one each (the low eight bits). */
  function CharsToBytes(s: string): (b: seq<Byte>)
    ensures |b| == |s|
  {
    seq(|s|, i requires 0 <= i < |s| => (s[i] as int) % 256)
  }

  function BytesToChars(b: seq<Byte>): (s: string)
    ensures |s| == |b|
  {
    seq(|b|, i requires 0 <= i < |b| => b[i] as char)
  }

  /** A string the codec keeps intact: short enough and one byte per character. */
  predicate Storable(s: string)
  {
    |s| < TWO_31 && forall i :: 0 <= i < |s| ==> (s[i] as int) < 256
  }

  /** `stringToByte`: the length, then the characters. */
  function StringToBytes(s: string): (b: seq<Byte>)
    ensures |b| == 4 + |s|
  {
    IntToBytes(Wrap32(|s|)) + CharsToBytes(s)
  }

  /** `ParseStringRes`: the string read and the number of bytes it took. */
  datatype ParseStringRes = ParseStringRes(str: string, next: nat)

  /** `parseString`: the length, then that many characters. */
  function ParseString(raw: seq<Byte>): (r: Result<ParseStringRes>)
    ensures r.Err? ==> r.error == OutOfBounds
    ensures r.Ok? ==> r.value.next == 4 + |r.value.str| <= |raw|
  {
    if |raw| < 4 then Err(OutOfBounds)
    else
      var n := ParseInt(raw[..4]);
      if n < 0 || 4 + n > |raw| then Err(OutOfBounds)
      else Ok(ParseStringRes(BytesToChars(raw[4..4 + n]), 4 + n))
  }

  /** A storable string reads back from its encoding, whatever follows it. */
  lemma StringRoundTrip(s: string, rest: seq<Byte>)
    requires Storable(s)
    ensures ParseString(StringToBytes(s) + rest) == Ok(ParseStringRes(s, 4 + |s|))
  {
    var raw := StringToBytes(s) + rest;
    assert raw[..4] == IntToBytes(|s|);
    IntRoundTrip(|s|);
    assert raw[4..4 + |s|] == CharsToBytes(s);
    assert BytesToChars(CharsToBytes(s)) == s;
  }

  // ---------------------------------------------------------------------
  // The stored form of a column: [name][type][index uid].

  /** `parseSelf(long)`: the bytes a new column is stored as. */
  function FieldToBytes(f: Field): (b: seq<Byte>)
    ensures |b| == 4 + |f.name| + 4 + |f.fieldType| + 8
  {
    StringToBytes(f.name) + StringToBytes(f.fieldType) + LongToBytes(f.index)
  }

  /**
   * `parseSelf(byte[])`: name, type, then the index uid from the first
   * eight bytes that follow.
   */
  function ParseField(raw: seq<Byte>): (r: Result<Field>)
    ensures r.Err? ==> r.error == OutOfBounds
  {
    var n := ParseString(raw);
    if n.Err? then Err(n.error)
    else
      var t := ParseString(raw[n.value.next..]);
      if t.Err? then Err(t.error)
      else
        var pos := n.value.next + t.value.next;
        if |raw| < pos + 8 then Err(OutOfBounds)
        else Ok(Field(n.value.str, t.value.str, ParseLong(raw[pos..pos + 8])))
  }

  /** `ParseField` once both strings have been read. */
  lemma ParseFieldFrom(raw: seq<Byte>, a: ParseStringRes, b: ParseStringRes)
    requires ParseString(raw) == Ok(a)
    requires ParseString(raw[a.next..]) == Ok(b)
    requires a.next + b.next + 8 <= |raw|
    ensures ParseField(raw) == Ok(Field(a.str, b.str, ParseLong(raw[a.next + b.next..a.next + b.next + 8])))
  {
  }

  /** A column loads back as it was stored. */
  lemma FieldRoundTrip(f: Field)
    requires Storable(f.name) && Storable(f.fieldType)
    ensures ParseField(FieldToBytes(f)) == Ok(f)
  {
    var a, b, c := StringToBytes(f.name), StringToBytes(f.fieldType), LongToBytes(f.index);
    var raw := a + b + c;
    assert raw == a + (b + c);
    StringRoundTrip(f.name, b + c);
    assert raw[|a|..] == b + c;
    StringRoundTrip(f.fieldType, c);
    assert raw[|a| + |b|..|a| + |b| + 8] == c;
    LongRoundTrip(f.index);
    ParseFieldFrom(raw, ParseStringRes(f.name, |a|), ParseStringRes(f.fieldType, |b|));
  }

  // ---------------------------------------------------------------------
  // Decimal text, as `Integer.parseInt`, `Long.parseLong` and
  // `String.valueOf` read and write it.

  predicate IsDigit(c: char)
  {
    '0' <= c <= '9'
  }

  predicate AllDigits(s: string)
  {
    forall i :: 0 <= i < |s| ==> IsDigit(s[i])
  }

  function DigitChar(d: nat): (c: char)
    requires d < 10
    ensures IsDigit(c)
  {
    ('0' as int + d) as char
  }

  /** The number a run of digits denotes. */
  function DigitsValue(ds: string): nat
    requires AllDigits(ds)
  {
    if |ds| == 0 then 0
    else DigitsValue(ds[..|ds| - 1]) * 10 + ((ds[|ds| - 1] as int) - ('0' as int))
  }

  /** The digits of `n` without leading zeros. */
  function Decimal(n: nat): (s: string)
    ensures |s| >= 1 && AllDigits(s)
    ensures s[0] == '0' ==> n == 0 && |s| == 1
  {
    if n < 10 then [DigitChar(n)] else Decimal(n / 10) + [DigitChar(n % 10)]
  }

  /** `String.valueOf` of an integer. */
  function ShowInt(x: int): (s: string)
    ensures |s| >= 1
  {
    if x < 0 then "-" + Decimal(-x) else Decimal(x)
  }

  /**
   * `Integer.parseInt` (lo, hi = the `int` range) and `Long.parseLong`
   * (the `long` range): an optional sign, at least one digit, nothing
   * else, and a value in range; anything else is a NumberFormatException.
   */
  function ParseDecimal(s: string, lo: int, hi: int): (r: Result<int>)
    ensures r.Err? ==> r.error == NumberFormat
    ensures r.Ok? ==> lo <= r.value <= hi
    ensures |s| == 0 ==> r.Err?
    ensures r.Ok? ==> exists k :: 0 <= k < |s| && IsDigit(s[k])
  {
    if |s| == 0 then Err(NumberFormat)
    else
      var body := if s[0] == '-' || s[0] == '+' then s[1..] else s;
      if |body| == 0 || !AllDigits(body) then Err(NumberFormat)
      else
        var mag: int := DigitsValue(body);
        assert IsDigit(s[|s| - 1]);
        var v := if s[0] == '-' then -mag else mag;
        if lo <= v <= hi then Ok(v) else Err(NumberFormat)
  }

  lemma {:induction false} DecimalValue(n: nat)
    ensures DigitsValue(Decimal(n)) == n
  {
    if n >= 10 {
      DecimalValue(n / 10);
      var s := Decimal(n);
      assert s[..|s| - 1] == Decimal(n / 10);
    }
  }

  /** Printed text parses back to the number when it is in range, and is refused otherwise. */
  lemma ShowParseRoundTrip(x: int, lo: int, hi: int)
    ensures ParseDecimal(ShowInt(x), lo, hi) == if lo <= x <= hi then Ok(x) else Err(NumberFormat)
  {
    var s := ShowInt(x);
    if x < 0 {
      assert s[1..] == Decimal(-x);
      DecimalValue(-x);
    } else {
      assert IsDigit(s[0]);
      DecimalValue(x);
    }
  }

  // ---------------------------------------------------------------------
  // Typed values.

  /** A value held by a column of the matching type. */
  datatype Value = Int32(i: I32) | Int64(l: I64) | Str(s: string)

  predicate HasType(v: Value, fieldType: string)
  {
    match v
    case Int32(_) => fieldType == "int32"
    case Int64(_) => fieldType == "int64"
    case Str(_) => fieldType == "string"
  }

  /** `string2Value`: literal text to a value of the column's type; `None` is null. */
  function String2Value(fieldType: string, text: string): (r: Result<Option<Value>>)
    ensures fieldType !in FIELD_TYPES ==> r == Ok(None)
    ensures r.Err? ==> r.error == NumberFormat && (fieldType == "int32" || fieldType == "int64")
    ensures fieldType in FIELD_TYPES && r.Ok? ==> r.value.Some? && HasType(r.value.value, fieldType)
    ensures fieldType == "string" ==> r == Ok(Some(Str(text)))
  {
    match fieldType
    case "int32" =>
      var p := ParseDecimal(text, -TWO_31, TWO_31 - 1);
      if p.Err? then Err(p.error) else Ok(Some(Int32(p.value)))
    case "int64" =>
      var p := ParseDecimal(text, -TWO_63, TWO_63 - 1);
      if p.Err? then Err(p.error) else Ok(Some(Int64(p.value)))
    case "string" => Ok(Some(Str(text)))
    case _ => Ok(None)
  }

  /** `printValue`. */
  function PrintValue(v: Value): string
  {
    match v
    case Int32(i) => ShowInt(i)
    case Int64(l) => ShowInt(l)
    case Str(s) => s
  }

  /** A printed value reads back as itself in a column of its type. */
  lemma PrintThenParse(v: Value, fieldType: string)
    requires HasType(v, fieldType)
    ensures String2Value(fieldType, PrintValue(v)) == Ok(Some(v))
  {
    match v
    case Int32(i) => ShowParseRoundTrip(i, -TWO_31, TWO_31 - 1);
    case Int64(l) => ShowParseRoundTrip(l, -TWO_63, TWO_63 - 1);
    case Str(_) =>
  }

  /** `value2Raw`: 4 bytes for int32, 8 for int64, the string codec for string. */
  function Value2Raw(v: Value): (b: seq<Byte>)
    ensures v.Int32? ==> |b| == 4
    ensures v.Int64? ==> |b| == 8
    ensures v.Str? ==> |b| == 4 + |v.s|
  {
    match v
    case Int32(i) => IntToBytes(i)
    case Int64(l) => LongToBytes(l)
    case Str(s) => StringToBytes(s)
  }

  /** `Arrays.copyOf(raw, n)`: the first n bytes, padded with zeros. */
  function CopyOf(raw: seq<Byte>, n: nat): (r: seq<Byte>)
    ensures |r| == n
    ensures n <= |raw| ==> r == raw[..n]
  {
    if n <= |raw| then raw[..n] else raw + seq(n - |raw|, _ => 0)
  }

  /** `ParseValueRes`: the value read (`None` is null) and the bytes it took. */
  datatype ParseValueRes = ParseValueRes(v: Option<Value>, shift: nat)

  /** `parseValue`: one value of the column's type from the front of `raw`. */
  function ParseValue(fieldType: string, raw: seq<Byte>): (r: Result<ParseValueRes>)
    ensures fieldType == "int32" ==> r.Ok? && r.value.shift == 4
    ensures fieldType == "int64" ==> r.Ok? && r.value.shift == 8
    ensures fieldType !in FIELD_TYPES ==> r == Ok(ParseValueRes(None, 0))
    ensures r.Ok? && r.value.v.Some? ==> HasType(r.value.v.value, fieldType)
    ensures r.Ok? ==> r.value.shift <= |raw| || fieldType != "string"
  {
    match fieldType
    case "int32" => Ok(ParseValueRes(Some(Int32(ParseInt(CopyOf(raw, 4)))), 4))
    case "int64" => Ok(ParseValueRes(Some(Int64(ParseLong(CopyOf(raw, 8)))), 8))
    case "string" =>
      var p := ParseString(raw);
      if p.Err? then Err(p.error) else Ok(ParseValueRes(Some(Str(p.value.str)), p.value.next))
    case _ => Ok(ParseValueRes(None, 0))
  }

  predicate StorableValue(v: Value)
  {
    v.Str? ==> Storable(v.s)
  }

  /** A stored value reads back, with the shift that skips exactly its bytes. */
  lemma ValueRoundTrip(v: Value, fieldType: string, rest: seq<Byte>)
    requires HasType(v, fieldType) && StorableValue(v)
    ensures ParseValue(fieldType, Value2Raw(v) + rest) == Ok(ParseValueRes(Some(v), |Value2Raw(v)|))
  {
    var raw := Value2Raw(v) + rest;
    match v
    case Int32(i) =>
      assert CopyOf(raw, 4) == IntToBytes(i);
      IntRoundTrip(i);
    case Int64(l) =>
      assert CopyOf(raw, 8) == LongToBytes(l);
      LongRoundTrip(l);
    case Str(s) =>
      StringRoundTrip(s, rest);
  }

  // ---------------------------------------------------------------------
  // Index keys.

  /**
   * `value2Uid` as written: the value is printed and parsed back, int32
   * with `Long.parseLong` and int64 with `Integer.parseInt`.
   */
  function Value2Uid(v: Value, hash: string -> I64): (r: Result<I64>)
  {
    match v
    case Int32(i) =>
      var p := ParseDecimal(ShowInt(i), -TWO_63, TWO_63 - 1);
      if p.Err? then Err(p.error) else Ok(p.value)
    case Int64(l) =>
      var p := ParseDecimal(ShowInt(l), -TWO_31, TWO_31 - 1);
      if p.Err? then Err(p.error) else Ok(p.value)
    case Str(s) => Ok(hash(s))
  }

  /** The key of a value: a number is its own key, a string its hash. */
  function Value2UidFixed(v: Value, hash: string -> I64): (k: I64)
  {
    match v
    case Int32(i) => i
    case Int64(l) => l
    case Str(s) => hash(s)
  }

  /** The number a numeric value holds. */
  function Number(v: Value): int
    requires !v.Str?
  {
    if v.Int32? then v.i else v.l
  }

  /** Numeric keys keep the values' order and equality. */
  lemma KeyOrder(a: Value, b: Value, hash: string -> I64)
    requires !a.Str? && !b.Str?
    ensures Value2UidFixed(a, hash) == Number(a) && Value2UidFixed(b, hash) == Number(b)
    ensures Value2UidFixed(a, hash) < Value2UidFixed(b, hash) <==> Number(a) < Number(b)
  {
  }

  /**
   * As written, an int64 key outside the `int` range is refused: its
   * insert into the index throws.
   */
  lemma Value2UidRefusesWideLong(hash: string -> I64)
    ensures Value2Uid(Int64(TWO_31), hash) == Err(NumberFormat)
    ensures Value2UidFixed(Int64(TWO_31), hash) == TWO_31
  {
    ShowParseRoundTrip(TWO_31, -TWO_31, TWO_31 - 1);
  }

  /** As written and corrected agree except on int64 values outside the `int` range. */
  lemma Value2UidAgrees(v: Value, hash: string -> I64)
    ensures Value2Uid(v, hash) ==
            if v.Int64? && !(-TWO_31 <= v.l < TWO_31) then Err(NumberFormat)
            else Ok(Value2UidFixed(v, hash))
  {
    match v
    case Int32(i) => ShowParseRoundTrip(i, -TWO_63, TWO_63 - 1);
    case Int64(l) => ShowParseRoundTrip(l, -TWO_31, TWO_31 - 1);
    case Str(_) =>
  }

  // ---------------------------------------------------------------------
  // Key ranges.

  /** `FieldCalRes`: the inclusive key range handed to `searchRange`. */
  datatype Range = Range(left: I64, right: I64)

  /** The keys a range selects. */
  predicate Selects(r: Range, k: int)
  {
    r.left <= k <= r.right
  }

  /** The comparison a `where` operator asks for between a key and the literal's key. */
  predicate Compares(op: string, k: int, key: int)
  {
    (op == "=" && k == key) || (op == "<" && k < key) || (op == ">" && k > key)
  }

  /** The switch of `calExp` as written. */
  function KeyRange(op: string, key: I64): Range
  {
    match op
    case "<" => Range(0, if key > 0 then key - 1 else key)
    case ">" => Range(Wrap64(key + 1), LONG_MAX)
    case "=" => Range(key, key)
    case _ => Range(0, 0)
  }

  /**
   * What the ranges of `calExp` as written select: `=` exactly the key;
   * `>` the larger keys while the key is below `Long.MAX_VALUE`; `<` the
   * smaller keys that are not negative while the key is positive; any
   * other operator the key 0 alone.
   */
  lemma KeyRangeSelects(op: string, key: I64, k: I64)
    ensures op == "=" ==> (Selects(KeyRange(op, key), k) <==> k == key)
    ensures op == ">" && key < LONG_MAX ==> (Selects(KeyRange(op, key), k) <==> k > key)
    ensures op == "<" && key > 0 ==> (Selects(KeyRange(op, key), k) <==> 0 <= k < key)
    ensures op != "=" && op != "<" && op != ">" ==> (Selects(KeyRange(op, key), k) <==> k == 0)
  {
  }

  /**
   * The cases where the ranges of `calExp` as written disagree with the
   * comparison: `> Long.MAX_VALUE` wraps to the whole key space, `< 0`
   * selects key 0, and `<` never reaches a negative key.
   */
  lemma KeyRangeMisses()
    ensures forall k: I64 :: Selects(KeyRange(">", LONG_MAX), k)
    ensures Selects(KeyRange("<", 0), 0) && !Compares("<", 0, 0)
    ensures !Selects(KeyRange("<", 5), -1) && Compares("<", -1, 5)
  {
  }

  /** The range that selects exactly the keys the comparison holds for; `Range(1, 0)` is empty. */
  function KeyRangeFixed(op: string, key: I64): Range
  {
    match op
    case "<" => if key == LONG_MIN then Range(1, 0) else Range(LONG_MIN, key - 1)
    case ">" => if key == LONG_MAX then Range(1, 0) else Range(key + 1, LONG_MAX)
    case "=" => Range(key, key)
    case _ => Range(0, 0)
  }

  /** The corrected range selects a key exactly when the comparison holds. */
  lemma KeyRangeFixedSelects(op: string, key: I64, k: I64)
    requires op == "=" || op == "<" || op == ">"
    ensures Selects(KeyRangeFixed(op, key), k) <==> Compares(op, k, key)
  {
  }

  /**
   * `calExp` as written: the literal becomes a value of the column's type
   * (null for an unknown type, whose key is 0), then a key, then a range.
   */
  function CalExp(fieldType: string, op: string, literal: string, hash: string -> I64): (r: Result<Range>)
    ensures r.Err? ==> r.error == NumberFormat
  {
    var obj := String2Value(fieldType, literal);
    if obj.Err? then Err(obj.error)
    else
      var key := if obj.value.None? then Ok(0) else Value2Uid(obj.value.value, hash);
      if key.Err? then Err(key.error)
      else Ok(KeyRange(op, key.value))
  }

  /** `calExp` with the corrected key and range. */
  function CalExpFixed(fieldType: string, op: string, literal: string, hash: string -> I64): (r: Result<Range>)
    ensures r.Err? ==> r.error == NumberFormat
  {
    var obj := String2Value(fieldType, literal);
    if obj.Err? then Err(obj.error)
    else
      var key := if obj.value.None? then 0 else Value2UidFixed(obj.value.value, hash);
      Ok(KeyRangeFixed(op, key))
  }

  /**
   * On a numeric column the corrected range selects the key of a value
   * exactly when the value compares with the literal as asked, and the
   * literal is refused only when it is not a number of the column's type.
   */
  lemma CalExpFixedSelects(fieldType: string, op: string, literal: string, hash: string -> I64, v: Value)
    requires fieldType == "int32" || fieldType == "int64"
    requires op == "=" || op == "<" || op == ">"
    requires HasType(v, fieldType)
    ensures var r := CalExpFixed(fieldType, op, literal, hash);
            var obj := String2Value(fieldType, literal);
            (r.Ok? <==> obj.Ok?) &&
            (r.Ok? ==> (Selects(r.value, Value2UidFixed(v, hash)) <==> Compares(op, Number(v), Number(obj.value.value))))
  {
    var obj := String2Value(fieldType, literal);
    if obj.Ok? {
      var key := Value2UidFixed(obj.value.value, hash);
      KeyRangeFixedSelects(op, key, Value2UidFixed(v, hash));
    }
  }

  /** As written and corrected ranges agree for `=`, and for `<`/`>` away from the edge keys. */
  lemma CalExpAgrees(fieldType: string, op: string, literal: string, hash: string -> I64)
    requires fieldType == "int32" || fieldType == "string"
    ensures var r := CalExp(fieldType, op, literal, hash);
            var f := CalExpFixed(fieldType, op, literal, hash);
            (r.Ok? <==> f.Ok?) && (op == "=" && r.Ok? ==> r == f)
  {
    var obj := String2Value(fieldType, literal);
    if obj.Ok? && obj.value.Some? {
      Value2UidAgrees(obj.value.value, hash);
    }
  }
}
