/**
 * The statement parser (`ParserSql`). A statement is read from a
 * tokenizer that offers `peek` (the current token, "" at the end) and
 * `pop` (step past it; a no-op at the end). The first token chooses the
 * statement kind; each kind has its own parser; a statement followed by
 * further tokens is rejected whatever its own parser said.
 *
 * Each parser is an imperative method over a `Tokenizer` object, proved
 * equal to a reference definition over the token list and a position
 * (`BeginFrom`, `CreateFrom`, ...), which also fixes where the tokenizer
 * stands when a parser fails. The tokenizer itself is not part of this
 * model: the statement arrives as its token list.
 */
module SqlParser {
  import opened Outcomes
  import FieldRules

  datatype SingleExp = SingleExp(field: string, op: string, value: string)

  /** `where e1 [op e2]`; `logicOp` is "" when the second expression is absent. */
  datatype Where = Where(exp1: SingleExp, logicOp: string, exp2: Option<SingleExp>)

  datatype Statement =
    | Begin(repeatableRead: bool)
    | Commit
    | Rollback
    | Create(tableName: string, fieldNames: seq<string>, fieldTypes: seq<string>, index: seq<string>)
    | Drop(tableName: string)
    | Select(fields: Option<seq<string>>, tableName: string, where: Option<Where>)  // `None`: `*`
    | Insert(tableName: string, values: seq<string>)
    | Delete(tableName: string, condition: Where)
    | Update(tableName: string, fieldName: string, value: string, where: Option<Where>)
    | Show

  /** What a parser returns, and the position the tokenizer is left at. */
  datatype Parsed<T> = Parsed(r: Result<T>, next: nat)

  /** `peek` at position `p`. */
  function At(ts: seq<string>, p: nat): string
  {
    if p < |ts| then ts[p] else ""
  }

  /** The position after `pop` at position `p`. */
  function Next(ts: seq<string>, p: nat): nat
  {
    if p < |ts| then p + 1 else p
  }

  function Invalid<T>(p: nat): Parsed<T>
  {
    Parsed(Err(InvalidCommand), p)
  }

  /** The tokenizer's letter test; the tokenizer is not part of this model, so ASCII letters are assumed. */
  predicate IsAlphaBeta(c: char)
  {
    ('a' <= c <= 'z') || ('A' <= c <= 'Z')
  }

  /** `isName`: only a one-character token that is not a letter is refused (so "" passes). */
  predicate IsName(name: string)
  {
    !(|name| == 1 && !IsAlphaBeta(name[0]))
  }

  /** `isType`: membership in the column types of `Field` (see `TypeIsFieldType`). */
  predicate IsType(tp: string)
  {
    tp == "int32" || tp == "int64" || tp == "string"
  }

  /** The parser's type test is the one `Field` applies. */
  lemma TypeIsFieldType(tp: string)
    ensures IsType(tp) <==> FieldRules.TypeCheck(tp).Ok?
  {
  }

  predicate IsCmpOp(op: string)
  {
    op == "=" || op == ">" || op == "<"
  }

  predicate IsLogicOp(op: string)
  {
    op == "and" || op == "or"
  }

  // ---------------------------------------------------------------------
  // Reference definitions, one per parser, over the token list.

  function BeginFrom(ts: seq<string>, p: nat): (res: Parsed<Statement>)
    ensures res.r.Err? ==> res.r.error == InvalidCommand
    ensures res.r.Ok? ==> res.r.value.Begin?
  {
    if At(ts, p) == "" then Parsed(Ok(Begin(false)), p)
    else if At(ts, p) != "isolation" then Invalid(p)
    else
      var p1 := Next(ts, p);
      if At(ts, p1) != "level" then Invalid(p1)
      else
        var p2 := Next(ts, p1);
        if At(ts, p2) == "read" then
          var p3 := Next(ts, p2);
          if At(ts, p3) != "committed" then Invalid(p3)
          else
            var p4 := Next(ts, p3);
            if At(ts, p4) != "" then Invalid(p4) else Parsed(Ok(Begin(false)), p4)
        else if At(ts, p2) == "repeatable" then
          var p3 := Next(ts, p2);
          if At(ts, p3) != "read" then Invalid(p3)
          else
            var p4 := Next(ts, p3);
            if At(ts, p4) != "" then Invalid(p4) else Parsed(Ok(Begin(true)), p4)
        else Invalid(p2)
  }

  /** `commit`, `abort` and `show`: nothing may follow the keyword. */
  function BareFrom(ts: seq<string>, p: nat, s: Statement): (res: Parsed<Statement>)
    ensures res.r.Err? ==> res.r.error == InvalidCommand
    ensures res.r.Ok? ==> res.r.value == s
  {
    if At(ts, p) != "" then Invalid(p) else Parsed(Ok(s), p)
  }

  /**
   * The column loop of `create`: after each `name type` comes `,` (more
   * columns), `(` (the index list) or the end, which means the table
   * has no index.
   */
  function ColumnsFrom(ts: seq<string>, cur: nat, names: seq<string>, types: seq<string>)
    : (res: Parsed<(seq<string>, seq<string>)>)
    requires cur <= |ts|
    ensures res.next <= |ts|
    ensures res.r.Err? ==> res.r.error == TableNoIndex || res.r.error == InvalidCommand
    decreases |ts| - cur
  {
    var q := Next(ts, cur);
    var s := At(ts, q);
    if s == "(" then Parsed(Ok((names, types)), q)
    else if !IsName(s) then Invalid(q)
    else
      var q2 := Next(ts, q);
      var f := At(ts, q2);
      if !IsType(f) then Invalid(q2)
      else
        var q3 := Next(ts, q2);
        var nx := At(ts, q3);
        if nx == "," then ColumnsFrom(ts, q3, names + [s], types + [f])
        else if nx == "" then Parsed(Err(TableNoIndex), q3)
        else if nx == "(" then Parsed(Ok((names + [s], types + [f])), q3)
        else Invalid(q3)
  }

  /**
   * The index-name loop of `create`, up to `)`. At the end of the input
   * `pop` no longer moves and "" passes `isName`, so the original loops
   * forever there (`Diverges`) unless `stopAtEnd` asks for the corrected
   * behaviour, which rejects the statement.
   */
  function IndexFrom(ts: seq<string>, cur: nat, idx: seq<string>, stopAtEnd: bool)
    : (res: Parsed<seq<string>>)
    requires cur <= |ts|
    ensures res.next <= |ts|
    ensures res.r.Err? ==> res.r.error == InvalidCommand || (!stopAtEnd && res.r.error == Diverges)
    ensures res.r == Err(Diverges) ==> res.next == |ts|
    decreases |ts| - cur
  {
    var q := Next(ts, cur);
    var field := At(ts, q);
    if field == ")" then Parsed(Ok(idx), q)
    else if !IsName(field) then Invalid(q)
    else if q == |ts| then (if stopAtEnd then Invalid(q) else Parsed(Err(Diverges), q))
    else IndexFrom(ts, q, idx + [field], stopAtEnd)
  }

  function CreateFrom(ts: seq<string>, p: nat, stopAtEnd: bool): (res: Parsed<Statement>)
    requires p <= |ts|
    ensures res.next <= |ts|
    ensures res.r.Err? ==> res.r.error in {InvalidCommand, TableNoIndex} || (!stopAtEnd && res.r.error == Diverges)
    ensures res.r.Ok? ==> res.r.value.Create?
  {
    if At(ts, p) != "table" then Invalid(p)
    else
      var p1 := Next(ts, p);
      var name := At(ts, p1);
      if !IsName(name) then Invalid(p1)
      else
        var cols := ColumnsFrom(ts, p1, [], []);
        if cols.r.Err? then Parsed(Err(cols.r.error), cols.next)
        else if |cols.r.value.0| == 0 || |cols.r.value.1| == 0 then Invalid(cols.next)
        else
          var c := Next(ts, cols.next);
          if At(ts, c) != "index" then Invalid(c)
          else
            var idx := IndexFrom(ts, c, [], stopAtEnd);
            if idx.r.Err? then Parsed(Err(idx.r.error), idx.next)
            else
              var e := Next(ts, idx.next);
              if At(ts, e) != "" then Invalid(e)
              else Parsed(Ok(Create(name, cols.r.value.0, cols.r.value.1, idx.r.value)), e)
  }

  function DropFrom(ts: seq<string>, p: nat): (res: Parsed<Statement>)
    ensures res.r.Err? ==> res.r.error == InvalidCommand
    ensures res.r.Ok? ==> res.r.value.Drop?
  {
    if At(ts, p) != "table" then Invalid(p)
    else
      var p1 := Next(ts, p);
      var name := At(ts, p1);
      if !IsName(name) then Invalid(p1)
      else
        var p2 := Next(ts, p1);
        if At(ts, p2) != "" then Invalid(p2) else Parsed(Ok(Drop(name)), p2)
  }

  function SingleExpFrom(ts: seq<string>, p: nat): (res: Parsed<SingleExp>)
    requires p <= |ts|
    ensures res.next <= |ts|
    ensures res.r.Err? ==> res.r.error == InvalidCommand
  {
    var field := At(ts, p);
    if !IsName(field) then Invalid(p)
    else
      var p1 := Next(ts, p);
      var op := At(ts, p1);
      if !IsCmpOp(op) then Invalid(p1)
      else
        var p2 := Next(ts, p1);
        Parsed(Ok(SingleExp(field, op, At(ts, p2))), Next(ts, p2))
  }

  function WhereFrom(ts: seq<string>, p: nat): (res: Parsed<Where>)
    requires p <= |ts|
    ensures res.next <= |ts|
    ensures res.r.Err? ==> res.r.error == InvalidCommand
  {
    if At(ts, p) != "where" then Invalid(p)
    else
      var e1 := SingleExpFrom(ts, Next(ts, p));
      if e1.r.Err? then Parsed(Err(e1.r.error), e1.next)
      else
        var op := At(ts, e1.next);
        if op == "" then Parsed(Ok(Where(e1.r.value, "", None)), e1.next)
        else if !IsLogicOp(op) then Invalid(e1.next)
        else
          var e2 := SingleExpFrom(ts, Next(ts, e1.next));
          if e2.r.Err? then Parsed(Err(e2.r.error), e2.next)
          else if At(ts, e2.next) != "" then Invalid(e2.next)
          else Parsed(Ok(Where(e1.r.value, op, Some(e2.r.value))), e2.next)
  }

  /**
   * The field loop of `select` as written: `peek` is read once before the
   * loop and never again, so the list holds copies of the first token,
   * one per token popped, until the token after a pop is `from` (or the
   * input ends, which is an error). `*` pops once and stops.
   */
  function SelectColumnsFrom(ts: seq<string>, peek: string, cur: nat, fields: seq<string>)
    : (res: Parsed<Option<seq<string>>>)
    requires cur <= |ts|
    ensures res.next <= |ts|
    ensures res.r.Err? ==> res.r.error == InvalidCommand
    decreases |ts| - cur
  {
    var q := Next(ts, cur);
    if peek == "*" then Parsed(Ok(None), q)
    else if !IsName(peek) || peek == "from" then Invalid(q)
    else
      var nx := At(ts, q);
      if nx == "" then Invalid(q)
      else if nx == "from" then Parsed(Ok(Some(fields + [peek])), q)
      else SelectColumnsFrom(ts, peek, q, fields + [peek])
  }

  /**
   * `select` as written. The field loop stops ON `from`; the code then
   * pops it and demands a second `from`, reporting a missing one as
   * "table has no index".
   */
  function SelectFrom(ts: seq<string>, p: nat): (res: Parsed<Statement>)
    requires p <= |ts|
    ensures res.next <= |ts|
    ensures res.r.Err? ==> res.r.error in {InvalidCommand, TableNoIndex}
    ensures res.r.Ok? ==> res.r.value.Select?
  {
    var cols := SelectColumnsFrom(ts, At(ts, p), p, []);
    if cols.r.Err? then Parsed(Err(cols.r.error), cols.next)
    else
      var c := Next(ts, cols.next);
      if At(ts, c) != "from" then Parsed(Err(TableNoIndex), c)
      else
        var d := Next(ts, c);
        var name := At(ts, d);
        if !IsName(name) then Invalid(d)
        else
          var e := Next(ts, d);
          if At(ts, e) == "" then Parsed(Ok(Select(cols.r.value, name, None)), e)
          else
            var w := WhereFrom(ts, e);
            if w.r.Err? then Parsed(Err(w.r.error), w.next)
            else Parsed(Ok(Select(cols.r.value, name, Some(w.r.value))), w.next)
  }

  /** The value loop of `insert`: every token up to the end. */
  function ValuesFrom(ts: seq<string>, cur: nat, vals: seq<string>): (res: Parsed<seq<string>>)
    requires cur <= |ts|
    ensures res.next <= |ts| && res.r.Ok?
    decreases |ts| - cur
  {
    var q := Next(ts, cur);
    if At(ts, q) == "" then Parsed(Ok(vals), q)
    else ValuesFrom(ts, q, vals + [At(ts, q)])
  }

  /** `insert into t values v...`: the table name is not checked by `isName`. */
  function InsertFrom(ts: seq<string>, p: nat): (res: Parsed<Statement>)
    requires p <= |ts|
    ensures res.next <= |ts|
    ensures res.r.Err? ==> res.r.error == InvalidCommand
    ensures res.r.Ok? ==> res.r.value.Insert?
  {
    if At(ts, p) != "into" then Invalid(p)
    else
      var p1 := Next(ts, p);
      var name := At(ts, p1);
      var p2 := Next(ts, p1);
      if At(ts, p2) != "values" then Invalid(p2)
      else
        var vs := ValuesFrom(ts, p2, []);
        Parsed(Ok(Insert(name, vs.r.value)), vs.next)
  }

  function UpdateFrom(ts: seq<string>, p: nat): (res: Parsed<Statement>)
    requires p <= |ts|
    ensures res.next <= |ts|
    ensures res.r.Err? ==> res.r.error == InvalidCommand
    ensures res.r.Ok? ==> res.r.value.Update?
  {
    var name := At(ts, p);
    if !IsName(name) then Invalid(p)
    else
      var p1 := Next(ts, p);
      if At(ts, p1) != "set" then Invalid(p1)
      else
        var p2 := Next(ts, p1);
        var field := At(ts, p2);
        var p3 := Next(ts, p2);
        if At(ts, p3) != "=" then Invalid(p3)
        else
          var p4 := Next(ts, p3);
          var value := At(ts, p4);
          var p5 := Next(ts, p4);
          if At(ts, p5) == "" then Parsed(Ok(Update(name, field, value, None)), p5)
          else
            var w := WhereFrom(ts, p5);
            if w.r.Err? then Parsed(Err(w.r.error), w.next)
            else Parsed(Ok(Update(name, field, value, Some(w.r.value))), w.next)
  }

  /** `delete from t where ...`: the where clause is mandatory. */
  function DeleteFrom(ts: seq<string>, p: nat): (res: Parsed<Statement>)
    requires p <= |ts|
    ensures res.next <= |ts|
    ensures res.r.Err? ==> res.r.error == InvalidCommand
    ensures res.r.Ok? ==> res.r.value.Delete?
  {
    if At(ts, p) != "from" then Invalid(p)
    else
      var p1 := Next(ts, p);
      var name := At(ts, p1);
      if !IsName(name) then Invalid(p1)
      else
        var w := WhereFrom(ts, Next(ts, p1));
        if w.r.Err? then Parsed(Err(w.r.error), w.next)
        else Parsed(Ok(Delete(name, w.r.value)), w.next)
  }

  /** The dispatch on the first token; the rollback keyword is `abort`. */
  function StatementFrom(ts: seq<string>, kind: string, p: nat): (res: Parsed<Statement>)
    requires p <= |ts|
    ensures res.next <= |ts|
    ensures res.r.Err? ==> res.r.error in {InvalidCommand, TableNoIndex} || (kind == "create" && res.r.error == Diverges)
  {
    if kind == "begin" then BeginFrom(ts, p)
    else if kind == "commit" then BareFrom(ts, p, Commit)
    else if kind == "abort" then BareFrom(ts, p, Rollback)
    else if kind == "create" then CreateFrom(ts, p, false)
    else if kind == "drop" then DropFrom(ts, p)
    else if kind == "select" then SelectFrom(ts, p)
    else if kind == "insert" then InsertFrom(ts, p)
    else if kind == "delete" then DeleteFrom(ts, p)
    else if kind == "update" then UpdateFrom(ts, p)
    else if kind == "show" then BareFrom(ts, p, Show)
    else Invalid(p)
  }

  /** `parse`: a statement with tokens left after it is invalid, whatever its parser said. */
  function ParseTokens(ts: seq<string>): Result<Statement>
  {
    var s := StatementFrom(ts, At(ts, 0), Next(ts, 0));
    if At(ts, s.next) != "" then Err(InvalidStatement) else s.r
  }

  // ---------------------------------------------------------------------
  // The parsers over a stateful tokenizer.

  class Tokenizer {
    const tokens: seq<string>
    var pos: nat

    predicate Valid()
      reads this
    {
      pos <= |tokens|
    }

    constructor (ts: seq<string>)
      ensures tokens == ts && pos == 0 && Valid()
    {
      tokens := ts;
      pos := 0;
    }

    function Peek(): string
      reads this
    {
      At(tokens, pos)
    }

    method Pop()
      requires Valid()
      modifies this
      ensures Valid() && pos == Next(tokens, old(pos))
    {
      pos := Next(tokens, pos);
    }
  }

  method ParseBegin(tk: Tokenizer) returns (r: Result<Statement>)
    requires tk.Valid()
    modifies tk
    ensures tk.Valid() && Parsed(r, tk.pos) == BeginFrom(tk.tokens, old(tk.pos))
  {
    var isolation := tk.Peek();
    if isolation == "" {
      return Ok(Begin(false));
    }
    if isolation != "isolation" {
      return Err(InvalidCommand);
    }
    tk.Pop();
    var level := tk.Peek();
    if level != "level" {
      return Err(InvalidCommand);
    }
    tk.Pop();
    var peek := tk.Peek();
    var repeatable := false;
    if peek == "read" {
      tk.Pop();
      if tk.Peek() != "committed" {
        return Err(InvalidCommand);
      }
      tk.Pop();
      if tk.Peek() != "" {
        return Err(InvalidCommand);
      }
    } else if peek == "repeatable" {
      tk.Pop();
      if tk.Peek() != "read" {
        return Err(InvalidCommand);
      }
      tk.Pop();
      if tk.Peek() != "" {
        return Err(InvalidCommand);
      }
      repeatable := true;
    } else {
      return Err(InvalidCommand);
    }
    return Ok(Begin(repeatable));
  }

  /** `parseCommit`, `parseRollback` and `parseShow` share this shape. */
  method ParseBare(tk: Tokenizer, s: Statement) returns (r: Result<Statement>)
    requires tk.Valid()
    modifies tk
    ensures tk.Valid() && Parsed(r, tk.pos) == BareFrom(tk.tokens, old(tk.pos), s)
  {
    if tk.Peek() != "" {
      return Err(InvalidCommand);
    }
    return Ok(s);
  }

  /** The column loop of `parseCreate`. */
  method ReadColumns(tk: Tokenizer) returns (r: Result<(seq<string>, seq<string>)>)
    requires tk.Valid()
    modifies tk
    ensures tk.Valid() && Parsed(r, tk.pos) == ColumnsFrom(tk.tokens, old(tk.pos), [], [])
  {
    ghost var goal := ColumnsFrom(tk.tokens, tk.pos, [], []);
    var names: seq<string> := [];
    var types: seq<string> := [];
    while true
      invariant tk.Valid() && ColumnsFrom(tk.tokens, tk.pos, names, types) == goal
      decreases |tk.tokens| - tk.pos
    {
      tk.Pop();
      var s := tk.Peek();
      if s == "(" {
        break;
      }
      if !IsName(s) {
        return Err(InvalidCommand);
      }
      tk.Pop();
      var f := tk.Peek();
      if !IsType(f) {
        return Err(InvalidCommand);
      }
      names := names + [s];
      types := types + [f];
      tk.Pop();
      var next := tk.Peek();
      if next == "," {
        continue;
      } else if next == "" {
        return Err(TableNoIndex);
      } else if next == "(" {
        break;
      } else {
        return Err(InvalidCommand);
      }
    }
    return Ok((names, types));
  }

  /**
   * The index-name loop of `parseCreate`. Where the original would spin
   * forever (at the end of the input) the model stops with `Diverges`.
   */
  method ReadIndexNames(tk: Tokenizer) returns (r: Result<seq<string>>)
    requires tk.Valid()
    modifies tk
    ensures tk.Valid() && Parsed(r, tk.pos) == IndexFrom(tk.tokens, old(tk.pos), [], false)
  {
    ghost var goal := IndexFrom(tk.tokens, tk.pos, [], false);
    var indexes: seq<string> := [];
    while true
      invariant tk.Valid() && IndexFrom(tk.tokens, tk.pos, indexes, false) == goal
      decreases |tk.tokens| - tk.pos
    {
      tk.Pop();
      var field := tk.Peek();
      if field == ")" {
        break;
      }
      if !IsName(field) {
        return Err(InvalidCommand);
      }
      if tk.pos == |tk.tokens| {
        return Err(Diverges);
      }
      indexes := indexes + [field];
    }
    return Ok(indexes);
  }

  method ParseCreate(tk: Tokenizer) returns (r: Result<Statement>)
    requires tk.Valid()
    modifies tk
    ensures tk.Valid() && Parsed(r, tk.pos) == CreateFrom(tk.tokens, old(tk.pos), false)
  {
    if tk.Peek() != "table" {
      return Err(InvalidCommand);
    }
    tk.Pop();
    var tableName := tk.Peek();
    if !IsName(tableName) {
      return Err(InvalidCommand);
    }
    var cols := ReadColumns(tk);
    if cols.Err? {
      return Err(cols.error);
    }
    var (fieldNames, fieldTypes) := cols.value;
    if |fieldNames| == 0 || |fieldTypes| == 0 {
      return Err(InvalidCommand);
    }
    tk.Pop();
    if tk.Peek() != "index" {
      return Err(InvalidCommand);
    }
    var indexes := ReadIndexNames(tk);
    if indexes.Err? {
      return Err(indexes.error);
    }
    tk.Pop();
    if tk.Peek() != "" {
      return Err(InvalidCommand);
    }
    return Ok(Create(tableName, fieldNames, fieldTypes, indexes.value));
  }

  method ParseDrop(tk: Tokenizer) returns (r: Result<Statement>)
    requires tk.Valid()
    modifies tk
    ensures tk.Valid() && Parsed(r, tk.pos) == DropFrom(tk.tokens, old(tk.pos))
  {
    if tk.Peek() != "table" {
      return Err(InvalidCommand);
    }
    tk.Pop();
    var tableName := tk.Peek();
    if !IsName(tableName) {
      return Err(InvalidCommand);
    }
    tk.Pop();
    if tk.Peek() != "" {
      return Err(InvalidCommand);
    }
    return Ok(Drop(tableName));
  }

  method ParseSingleExp(tk: Tokenizer) returns (r: Result<SingleExp>)
    requires tk.Valid()
    modifies tk
    ensures tk.Valid() && Parsed(r, tk.pos) == SingleExpFrom(tk.tokens, old(tk.pos))
  {
    var field := tk.Peek();
    if !IsName(field) {
      return Err(InvalidCommand);
    }
    tk.Pop();
    var op := tk.Peek();
    if !IsCmpOp(op) {
      return Err(InvalidCommand);
    }
    tk.Pop();
    var value := tk.Peek();
    tk.Pop();
    return Ok(SingleExp(field, op, value));
  }

  method ParseWhere(tk: Tokenizer) returns (r: Result<Where>)
    requires tk.Valid()
    modifies tk
    ensures tk.Valid() && Parsed(r, tk.pos) == WhereFrom(tk.tokens, old(tk.pos))
  {
    if tk.Peek() != "where" {
      return Err(InvalidCommand);
    }
    tk.Pop();
    var exp1 := ParseSingleExp(tk);
    if exp1.Err? {
      return Err(exp1.error);
    }
    var logicOp := tk.Peek();
    if logicOp == "" {
      return Ok(Where(exp1.value, logicOp, None));
    }
    if !IsLogicOp(logicOp) {
      return Err(InvalidCommand);
    }
    tk.Pop();
    var exp2 := ParseSingleExp(tk);
    if exp2.Err? {
      return Err(exp2.error);
    }
    if tk.Peek() != "" {
      return Err(InvalidCommand);
    }
    return Ok(Where(exp1.value, logicOp, Some(exp2.value)));
  }

  /** The field loop of `parseSelect`, as written (see `SelectColumnsFrom`). */
  method ReadSelectColumns(tk: Tokenizer) returns (r: Result<Option<seq<string>>>)
    requires tk.Valid()
    modifies tk
    ensures tk.Valid() && Parsed(r, tk.pos) == SelectColumnsFrom(tk.tokens, At(tk.tokens, old(tk.pos)), old(tk.pos), [])
  {
    var peek := tk.Peek();
    ghost var goal := SelectColumnsFrom(tk.tokens, peek, tk.pos, []);
    var fields: seq<string> := [];
    while true
      invariant tk.Valid() && SelectColumnsFrom(tk.tokens, peek, tk.pos, fields) == goal
      decreases |tk.tokens| - tk.pos
    {
      tk.Pop();
      if peek == "*" {
        return Ok(None);
      }
      if !IsName(peek) || peek == "from" {
        return Err(InvalidCommand);
      }
      fields := fields + [peek];
      var next := tk.Peek();
      if next == "" {
        return Err(InvalidCommand);
      } else if next == "," {
        continue;
      } else if next == "from" {
        break;
      }
    }
    return Ok(Some(fields));
  }

  method ParseSelect(tk: Tokenizer) returns (r: Result<Statement>)
    requires tk.Valid()
    modifies tk
    ensures tk.Valid() && Parsed(r, tk.pos) == SelectFrom(tk.tokens, old(tk.pos))
  {
    var fields := ReadSelectColumns(tk);
    if fields.Err? {
      return Err(fields.error);
    }
    tk.Pop();
    if tk.Peek() != "from" {
      return Err(TableNoIndex);
    }
    tk.Pop();
    var tableName := tk.Peek();
    if !IsName(tableName) {
      return Err(InvalidCommand);
    }
    tk.Pop();
    if tk.Peek() == "" {
      return Ok(Select(fields.value, tableName, None));
    }
    var where := ParseWhere(tk);
    if where.Err? {
      return Err(where.error);
    }
    return Ok(Select(fields.value, tableName, Some(where.value)));
  }

  method ParseInsert(tk: Tokenizer) returns (r: Result<Statement>)
    requires tk.Valid()
    modifies tk
    ensures tk.Valid() && Parsed(r, tk.pos) == InsertFrom(tk.tokens, old(tk.pos))
  {
    if tk.Peek() != "into" {
      return Err(InvalidCommand);
    }
    tk.Pop();
    var tableName := tk.Peek();
    tk.Pop();
    if tk.Peek() != "values" {
      return Err(InvalidCommand);
    }
    ghost var goal := ValuesFrom(tk.tokens, tk.pos, []);
    var values: seq<string> := [];
    while true
      invariant tk.Valid() && ValuesFrom(tk.tokens, tk.pos, values) == goal
      decreases |tk.tokens| - tk.pos
    {
      tk.Pop();
      var next := tk.Peek();
      if next == "" {
        break;
      }
      values := values + [next];
    }
    return Ok(Insert(tableName, values));
  }

  method ParseUpdate(tk: Tokenizer) returns (r: Result<Statement>)
    requires tk.Valid()
    modifies tk
    ensures tk.Valid() && Parsed(r, tk.pos) == UpdateFrom(tk.tokens, old(tk.pos))
  {
    var tableName := tk.Peek();
    if !IsName(tableName) {
      return Err(InvalidCommand);
    }
    tk.Pop();
    if tk.Peek() != "set" {
      return Err(InvalidCommand);
    }
    tk.Pop();
    var fieldName := tk.Peek();
    tk.Pop();
    if tk.Peek() != "=" {
      return Err(InvalidCommand);
    }
    tk.Pop();
    var value := tk.Peek();
    tk.Pop();
    if tk.Peek() == "" {
      return Ok(Update(tableName, fieldName, value, None));
    }
    var where := ParseWhere(tk);
    if where.Err? {
      return Err(where.error);
    }
    return Ok(Update(tableName, fieldName, value, Some(where.value)));
  }

  method ParseDelete(tk: Tokenizer) returns (r: Result<Statement>)
    requires tk.Valid()
    modifies tk
    ensures tk.Valid() && Parsed(r, tk.pos) == DeleteFrom(tk.tokens, old(tk.pos))
  {
    if tk.Peek() != "from" {
      return Err(InvalidCommand);
    }
    tk.Pop();
    var tableName := tk.Peek();
    if !IsName(tableName) {
      return Err(InvalidCommand);
    }
    tk.Pop();
    var where := ParseWhere(tk);
    if where.Err? {
      return Err(where.error);
    }
    return Ok(Delete(tableName, where.value));
  }

  /** `parse`: dispatch on the first token, then refuse leftover tokens. */
  method Parse(tokens: seq<string>) returns (r: Result<Statement>)
    ensures r == ParseTokens(tokens)
  {
    var tk := new Tokenizer(tokens);
    var peek := tk.Peek();
    tk.Pop();
    var stat: Result<Statement>;
    if peek == "begin" {
      stat := ParseBegin(tk);
    } else if peek == "commit" {
      stat := ParseBare(tk, Commit);
    } else if peek == "abort" {
      stat := ParseBare(tk, Rollback);
    } else if peek == "create" {
      stat := ParseCreate(tk);
    } else if peek == "drop" {
      stat := ParseDrop(tk);
    } else if peek == "select" {
      stat := ParseSelect(tk);
    } else if peek == "insert" {
      stat := ParseInsert(tk);
    } else if peek == "delete" {
      stat := ParseDelete(tk);
    } else if peek == "update" {
      stat := ParseUpdate(tk);
    } else if peek == "show" {
      stat := ParseBare(tk, Show);
    } else {
      stat := Err(InvalidCommand);
    }
    if tk.Peek() != "" {
      return Err(InvalidStatement);
    }
    return stat;
  }
}

/**
 * What the parser accepts, stated against a renderer: every well-formed
 * statement, written out as tokens, parses back to itself. The two
 * places where the parser as written falls short of this (`select`, and
 * an unterminated index list in `create`) are shown with inputs, and
 * corrected definitions are proved to meet it.
 */
module SqlGrammar {
  import opened Outcomes
  import opened SqlParser

  predicate Words(ss: seq<string>)
  {
    forall i :: 0 <= i < |ss| ==> ss[i] != ""
  }

  function ExpTokens(e: SingleExp): seq<string>
  {
    [e.field, e.op, e.value]
  }

  predicate WellFormedExp(e: SingleExp)
  {
    IsName(e.field) && IsCmpOp(e.op)
  }

  function WhereTokens(w: Where): seq<string>
  {
    ["where"] + ExpTokens(w.exp1) + (if w.exp2.Some? then [w.logicOp] + ExpTokens(w.exp2.value) else [])
  }

  predicate WellFormedWhere(w: Where)
  {
    WellFormedExp(w.exp1) &&
    (w.exp2.None? ==> w.logicOp == "") &&
    (w.exp2.Some? ==> IsLogicOp(w.logicOp) && WellFormedExp(w.exp2.value))
  }

  function OptWhereTokens(w: Option<Where>): seq<string>
  {
    if w.Some? then WhereTokens(w.value) else []
  }

  /** `n1 t1 , n2 t2 , ... nk tk` */
  function ColumnTokens(names: seq<string>, types: seq<string>): seq<string>
    requires |names| == |types|
    decreases |names|
  {
    if |names| == 0 then []
    else if |names| == 1 then [names[0], types[0]]
    else [names[0], types[0], ","] + ColumnTokens(names[1..], types[1..])
  }

  /** `f1 , f2 , ... fk`, or `*` */
  function FieldTokens(fs: seq<string>): seq<string>
    decreases |fs|
  {
    if |fs| == 0 then []
    else if |fs| == 1 then [fs[0]]
    else [fs[0], ","] + FieldTokens(fs[1..])
  }

  function Render(s: Statement): seq<string>
  {
    match s
    case Begin(rr) => if rr then ["begin", "isolation", "level", "repeatable", "read"] else ["begin"]
    case Commit => ["commit"]
    case Rollback => ["abort"]
    case Show => ["show"]
    case Create(name, names, types, idx) =>
      if |names| == |types| then
        ["create", "table", name] + ColumnTokens(names, types) + ["(", "index"] + idx + [")"]
      else []
    case Drop(name) => ["drop", "table", name]
    case Select(fields, name, w) =>
      ["select"] + (if fields.Some? then FieldTokens(fields.value) else ["*"]) + ["from", name] + OptWhereTokens(w)
    case Insert(name, values) => ["insert", "into", name, "values"] + values
    case Delete(name, w) => ["delete", "from", name] + WhereTokens(w)
    case Update(name, field, value, w) => ["update", name, "set", field, "=", value] + OptWhereTokens(w)
  }

  /** The column declarations `create` accepts. */
  predicate Declared(names: seq<string>, types: seq<string>)
  {
    |names| == |types| && forall i :: 0 <= i < |names| ==> IsName(names[i]) && IsType(types[i])
  }

  predicate WellFormed(s: Statement)
  {
    match s
    case Begin(_) => true
    case Commit => true
    case Rollback => true
    case Show => true
    case Create(name, names, types, idx) =>
      IsName(name) && Declared(names, types) && |names| >= 1 &&
      (forall i :: 0 <= i < |idx| ==> IsName(idx[i]))
    case Drop(name) => IsName(name)
    case Select(fields, name, w) =>
      IsName(name) && name != "" &&
      (fields.Some? ==> |fields.value| >= 1 && fields.value[0] != "*" &&
                        forall i :: 0 <= i < |fields.value| ==> IsName(fields.value[i])) &&
      (w.Some? ==> WellFormedWhere(w.value))
    case Insert(_, values) => Words(values)
    case Delete(name, w) => IsName(name) && WellFormedWhere(w)
    case Update(name, _, _, w) => IsName(name) && (w.Some? ==> WellFormedWhere(w.value))
  }

  // ---------------------------------------------------------------------
  // Corrected definitions.

  /** The intended `select` field list: names separated by `,`. */
  function SelectFieldsFixed(ts: seq<string>, cur: nat, fields: seq<string>): (res: Parsed<seq<string>>)
    requires cur <= |ts|
    ensures res.next <= |ts|
    ensures res.r.Err? ==> res.r.error == InvalidCommand
    decreases |ts| - cur
  {
    var f := At(ts, cur);
    if !IsName(f) then Invalid(cur)
    else
      var q := Next(ts, cur);
      if At(ts, q) == "," then SelectFieldsFixed(ts, Next(ts, q), fields + [f])
      else Parsed(Ok(fields + [f]), q)
  }

  /** The intended field list of `select`: `*`, or names separated by `,`. */
  function SelectColsFixed(ts: seq<string>, p: nat): (res: Parsed<Option<seq<string>>>)
    requires p <= |ts|
    ensures res.next <= |ts|
    ensures res.r.Err? ==> res.r.error == InvalidCommand
  {
    if At(ts, p) == "*" then Parsed(Ok(None), Next(ts, p))
    else
      var fs := SelectFieldsFixed(ts, p, []);
      Parsed(if fs.r.Ok? then Ok(Some(fs.r.value)) else Err(fs.r.error), fs.next)
  }

  /** An optional trailing where clause: none when the input has ended. */
  function OptWhereFrom(ts: seq<string>, e: nat): (res: Parsed<Option<Where>>)
    requires e <= |ts|
    ensures res.next <= |ts|
    ensures res.r.Err? ==> res.r.error == InvalidCommand
  {
    if At(ts, e) == "" then Parsed(Ok(None), e)
    else
      var w := WhereFrom(ts, e);
      Parsed(if w.r.Ok? then Ok(Some(w.r.value)) else Err(w.r.error), w.next)
  }

  /** The intended `select`: `(*|fields) from table [where ...]`. */
  function SelectFixedFrom(ts: seq<string>, p: nat): (res: Parsed<Statement>)
    requires p <= |ts|
    ensures res.next <= |ts|
    ensures res.r.Err? ==> res.r.error == InvalidCommand
    ensures res.r.Ok? ==> res.r.value.Select?
  {
    var cols := SelectColsFixed(ts, p);
    if cols.r.Err? then Parsed(Err(cols.r.error), cols.next)
    else if At(ts, cols.next) != "from" then Invalid(cols.next)
    else
      var d := Next(ts, cols.next);
      var name := At(ts, d);
      if !IsName(name) then Invalid(d)
      else
        var w := OptWhereFrom(ts, Next(ts, d));
        if w.r.Err? then Parsed(Err(w.r.error), w.next)
        else Parsed(Ok(Select(cols.r.value, name, w.r.value)), w.next)
  }

  /** The dispatch with the corrected `select` and an index list that stops at the end of input. */
  function FixedStatementFrom(ts: seq<string>, kind: string, p: nat): (res: Parsed<Statement>)
    requires p <= |ts|
    ensures res.next <= |ts|
  {
    if kind == "select" then SelectFixedFrom(ts, p)
    else if kind == "create" then CreateFrom(ts, p, true)
    else StatementFrom(ts, kind, p)
  }

  /** `parse` over the corrected dispatch. */
  function ParseFixed(ts: seq<string>): Result<Statement>
  {
    var s := FixedStatementFrom(ts, At(ts, 0), Next(ts, 0));
    if At(ts, s.next) != "" then Err(InvalidStatement) else s.r
  }

  // ---------------------------------------------------------------------
  // Round trips: the pieces of a rendered statement parse back.

  /** The tokens `xs` stand in `ts` from position `p` on. */
  predicate HasAt(ts: seq<string>, p: nat, xs: seq<string>)
  {
    p + |xs| <= |ts| && forall k :: 0 <= k < |xs| ==> ts[p + k] == xs[k]
  }

  lemma HasAtSplit(ts: seq<string>, p: nat, xs: seq<string>, ys: seq<string>)
    requires HasAt(ts, p, xs + ys)
    ensures HasAt(ts, p, xs) && HasAt(ts, p + |xs|, ys)
  {
    forall k | 0 <= k < |xs| ensures ts[p + k] == xs[k] {
      assert (xs + ys)[k] == xs[k];
    }
    forall k | 0 <= k < |ys| ensures ts[p + |xs| + k] == ys[k] {
      assert (xs + ys)[|xs| + k] == ys[k];
    }
  }

  lemma HasAtMiddle(a: seq<string>, b: seq<string>, c: seq<string>)
    ensures HasAt(a + b + c, |a|, b)
  {
    forall k | 0 <= k < |b| ensures (a + b + c)[|a| + k] == b[k] {
    }
  }

  lemma SingleExpRoundTrip(ts: seq<string>, p: nat, e: SingleExp)
    requires HasAt(ts, p, ExpTokens(e)) && WellFormedExp(e)
    ensures SingleExpFrom(ts, p) == Parsed(Ok(e), p + 3)
  {
    assert ts[p + 0] == e.field && ts[p + 1] == e.op && ts[p + 2] == e.value by {
      assert ExpTokens(e)[0] == e.field && ExpTokens(e)[1] == e.op && ExpTokens(e)[2] == e.value;
    }
  }

  /** A where clause that ends the input parses back to itself. */
  lemma WhereRoundTrip(ts: seq<string>, p: nat, w: Where)
    requires HasAt(ts, p, WhereTokens(w)) && p + |WhereTokens(w)| == |ts| && WellFormedWhere(w)
    ensures WhereFrom(ts, p) == Parsed(Ok(w), |ts|)
  {
    var tail := if w.exp2.Some? then [w.logicOp] + ExpTokens(w.exp2.value) else [];
    assert WhereTokens(w) == ["where"] + ExpTokens(w.exp1) + tail;
    HasAtSplit(ts, p, ["where"] + ExpTokens(w.exp1), tail);
    HasAtSplit(ts, p, ["where"], ExpTokens(w.exp1));
    assert ts[p + 0] == ["where"][0];
    SingleExpRoundTrip(ts, p + 1, w.exp1);
    if w.exp2.Some? {
      HasAtSplit(ts, p + 4, [w.logicOp], ExpTokens(w.exp2.value));
      assert ts[p + 4 + 0] == [w.logicOp][0];
      SingleExpRoundTrip(ts, p + 5, w.exp2.value);
    }
  }

  /** One turn of the column loop over `n t nx`. */
  lemma ColumnsStep(ts: seq<string>, cur: nat, accN: seq<string>, accT: seq<string>)
    requires cur + 3 < |ts| && IsName(ts[cur + 1]) && IsType(ts[cur + 2])
    ensures var n, t, nx := ts[cur + 1], ts[cur + 2], ts[cur + 3];
            ColumnsFrom(ts, cur, accN, accT) ==
              if nx == "," then ColumnsFrom(ts, cur + 3, accN + [n], accT + [t])
              else if nx == "(" then Parsed(Ok((accN + [n], accT + [t])), cur + 3)
              else if nx == "" then Parsed(Err(TableNoIndex), cur + 3)
              else Invalid(cur + 3)
  {
  }

  /** The last column of a list that the input ends with. */
  lemma ColumnsLast(ts: seq<string>, cur: nat, accN: seq<string>, accT: seq<string>)
    requires cur + 3 == |ts| && IsName(ts[cur + 1]) && IsType(ts[cur + 2])
    ensures ColumnsFrom(ts, cur, accN, accT) == Parsed(Err(TableNoIndex), |ts|)
  {
  }

  lemma DeclaredTail(names: seq<string>, types: seq<string>)
    requires Declared(names, types) && |names| >= 1
    ensures IsName(names[0]) && IsType(types[0]) && Declared(names[1..], types[1..])
  {
    assert IsName(names[0]) && IsType(types[0]);
    forall i | 0 <= i < |names| - 1 ensures IsName(names[1..][i]) && IsType(types[1..][i]) {
      assert IsName(names[i + 1]) && IsType(types[i + 1]);
    }
  }

  lemma {:induction false} ColumnsRoundTrip(ts: seq<string>, cur: nat, accN: seq<string>, accT: seq<string>,
                                            names: seq<string>, types: seq<string>)
    requires Declared(names, types) && |names| >= 1
    requires HasAt(ts, cur + 1, ColumnTokens(names, types))
    requires cur + 1 + |ColumnTokens(names, types)| < |ts| && ts[cur + 1 + |ColumnTokens(names, types)|] == "("
    ensures ColumnsFrom(ts, cur, accN, accT)
         == Parsed(Ok((accN + names, accT + types)), cur + 1 + |ColumnTokens(names, types)|)
    decreases |names|, 1
  {
    DeclaredTail(names, types);
    if |names| == 1 {
      var ct := ColumnTokens(names, types);
      assert ts[cur + 1 + 0] == ct[0] && ts[cur + 1 + 1] == ct[1];
      ColumnsStep(ts, cur, accN, accT);
      assert accN + names == accN + [names[0]] && accT + types == accT + [types[0]];
    } else {
      ColumnsRoundTripMore(ts, cur, accN, accT, names, types);
    }
  }

  lemma {:induction false} ColumnsRoundTripMore(ts: seq<string>, cur: nat, accN: seq<string>, accT: seq<string>,
                                                names: seq<string>, types: seq<string>)
    requires Declared(names, types) && |names| >= 2
    requires HasAt(ts, cur + 1, ColumnTokens(names, types))
    requires cur + 1 + |ColumnTokens(names, types)| < |ts| && ts[cur + 1 + |ColumnTokens(names, types)|] == "("
    ensures ColumnsFrom(ts, cur, accN, accT)
         == Parsed(Ok((accN + names, accT + types)), cur + 1 + |ColumnTokens(names, types)|)
    decreases |names|, 0
  {
    var ct := ColumnTokens(names, types);
    var rest := ColumnTokens(names[1..], types[1..]);
    var n1, t1 := accN + [names[0]], accT + [types[0]];
    assert Declared(names[1..], types[1..]) && IsName(ts[cur + 1]) && IsType(ts[cur + 2]) &&
           ts[cur + 1] == names[0] && ts[cur + 2] == types[0] && ts[cur + 3] == "," &&
           HasAt(ts, cur + 4, rest) && |ct| == 3 + |rest| by {
      DeclaredTail(names, types);
      var hd := [names[0], types[0], ","];
      assert ct == hd + rest;
      HasAtSplit(ts, cur + 1, hd, rest);
      assert ts[cur + 1 + 0] == hd[0] && ts[cur + 1 + 1] == hd[1] && ts[cur + 1 + 2] == hd[2];
    }
    ColumnsStep(ts, cur, accN, accT);
    assert ColumnsFrom(ts, cur, accN, accT) == ColumnsFrom(ts, cur + 3, n1, t1);
    ColumnsRoundTrip(ts, cur + 3, n1, t1, names[1..], types[1..]);
    AppendHead(accN, names);
    AppendHead(accT, types);
  }

  lemma AppendHead(acc: seq<string>, xs: seq<string>)
    requires |xs| >= 1
    ensures acc + [xs[0]] + xs[1..] == acc + xs
  {
    assert xs == [xs[0]] + xs[1..];
  }

  lemma {:induction false} IndexRoundTrip(ts: seq<string>, cur: nat, acc: seq<string>, idx: seq<string>, stopAtEnd: bool)
    requires forall i :: 0 <= i < |idx| ==> IsName(idx[i])
    requires HasAt(ts, cur + 1, idx + [")"])
    ensures IndexFrom(ts, cur, acc, stopAtEnd) == Parsed(Ok(acc + idx), cur + 1 + |idx|)
    decreases |idx|
  {
    assert ts[cur + 1 + 0] == (idx + [")"])[0];
    if |idx| == 0 {
      assert acc + idx == acc;
    } else {
      assert idx + [")"] == [idx[0]] + (idx[1..] + [")"]);
      HasAtSplit(ts, cur + 1, [idx[0]], idx[1..] + [")"]);
      IndexRoundTrip(ts, cur + 1, acc + [idx[0]], idx[1..], stopAtEnd);
      assert acc + [idx[0]] + idx[1..] == acc + idx;
    }
  }

  lemma {:induction false} ValuesRoundTrip(ts: seq<string>, cur: nat, acc: seq<string>, vals: seq<string>)
    requires Words(vals) && HasAt(ts, cur + 1, vals) && cur + 1 + |vals| == |ts|
    ensures ValuesFrom(ts, cur, acc) == Parsed(Ok(acc + vals), |ts|)
    decreases |vals|
  {
    if |vals| == 0 {
      assert acc + vals == acc;
    } else {
      assert ts[cur + 1 + 0] == vals[0];
      assert vals == [vals[0]] + vals[1..];
      HasAtSplit(ts, cur + 1, [vals[0]], vals[1..]);
      ValuesRoundTrip(ts, cur + 1, acc + [vals[0]], vals[1..]);
      assert acc + [vals[0]] + vals[1..] == acc + vals;
    }
  }

  lemma {:induction false} FieldsFixedRoundTrip(ts: seq<string>, cur: nat, acc: seq<string>, fs: seq<string>)
    requires |fs| >= 1 && forall i :: 0 <= i < |fs| ==> IsName(fs[i])
    requires HasAt(ts, cur, FieldTokens(fs)) && At(ts, cur + |FieldTokens(fs)|) != ","
    ensures SelectFieldsFixed(ts, cur, acc) == Parsed(Ok(acc + fs), cur + |FieldTokens(fs)|)
    decreases |fs|
  {
    var ft := FieldTokens(fs);
    assert ts[cur + 0] == ft[0] == fs[0];
    if |fs| == 1 {
      assert acc + fs == acc + [fs[0]];
    } else {
      var rest := FieldTokens(fs[1..]);
      assert ft == [fs[0], ","] + rest;
      assert ts[cur + 1] == ft[1];
      HasAtSplit(ts, cur, [fs[0], ","], rest);
      FieldsFixedRoundTrip(ts, cur + 2, acc + [fs[0]], fs[1..]);
      assert acc + [fs[0]] + fs[1..] == acc + fs;
    }
  }

  /** Where each part of a rendered `create` stands. */
  lemma CreateLayout(s: Statement)
    requires s.Create? && |s.fieldNames| == |s.fieldTypes|
    ensures var ts := Render(s);
            var ct := ColumnTokens(s.fieldNames, s.fieldTypes);
            |ts| == 6 + |ct| + |s.index| &&
            ts[0] == "create" && ts[1] == "table" && ts[2] == s.tableName &&
            HasAt(ts, 3, ct + ["("]) && ts[4 + |ct|] == "index" && HasAt(ts, 5 + |ct|, s.index + [")"])
  {
    var ts := Render(s);
    var ct := ColumnTokens(s.fieldNames, s.fieldTypes);
    var a := ["create", "table", s.tableName];
    assert ts == a + (ct + ["("]) + (["index"] + s.index + [")"]);
    HasAtMiddle(a, ct + ["("], ["index"] + s.index + [")"]);
    assert ts == (a + ct + ["(", "index"]) + (s.index + [")"]) + [];
    HasAtMiddle(a + ct + ["(", "index"], s.index + [")"], []);
  }

  /** `create` succeeds once its columns and its index list have been read. */
  lemma CreateFromOk(ts: seq<string>, p: nat, stopAtEnd: bool, names: seq<string>, types: seq<string>,
                     index: seq<string>, q: nat, r: nat)
    requires p < |ts| && ts[p] == "table" && IsName(At(ts, p + 1))
    requires ColumnsFrom(ts, p + 1, [], []) == Parsed(Ok((names, types)), q) && |names| > 0 && |types| > 0
    requires q + 1 < |ts| && ts[q + 1] == "index"
    requires IndexFrom(ts, q + 1, [], stopAtEnd) == Parsed(Ok(index), r) && r + 1 == |ts|
    ensures CreateFrom(ts, p, stopAtEnd) == Parsed(Ok(Create(At(ts, p + 1), names, types, index)), |ts|)
  {
  }

  lemma EmptyAppend(xs: seq<string>)
    ensures [] + xs == xs
  {
  }

  lemma CreateTokensRoundTrip(ts: seq<string>, s: Statement, stopAtEnd: bool)
    requires s.Create? && WellFormed(s)
    requires var ct := ColumnTokens(s.fieldNames, s.fieldTypes);
             |ts| == 6 + |ct| + |s.index| &&
             ts[1] == "table" && ts[2] == s.tableName &&
             HasAt(ts, 3, ct + ["("]) && ts[4 + |ct|] == "index" && HasAt(ts, 5 + |ct|, s.index + [")"])
    ensures CreateFrom(ts, 1, stopAtEnd) == Parsed(Ok(s), |ts|)
  {
    var ct := ColumnTokens(s.fieldNames, s.fieldTypes);
    HasAtSplit(ts, 3, ct, ["("]);
    assert ts[3 + |ct| + 0] == ["("][0];
    ColumnsRoundTrip(ts, 2, [], [], s.fieldNames, s.fieldTypes);
    EmptyAppend(s.fieldNames);
    EmptyAppend(s.fieldTypes);
    IndexRoundTrip(ts, 4 + |ct|, [], s.index, stopAtEnd);
    EmptyAppend(s.index);
    CreateFromOk(ts, 1, stopAtEnd, s.fieldNames, s.fieldTypes, s.index, 3 + |ct|, 5 + |ct| + |s.index|);
  }

  lemma CreateRoundTrip(s: Statement, stopAtEnd: bool)
    requires s.Create? && WellFormed(s)
    ensures CreateFrom(Render(s), 1, stopAtEnd) == Parsed(Ok(s), |Render(s)|)
  {
    CreateLayout(s);
    CreateTokensRoundTrip(Render(s), s, stopAtEnd);
  }

  /** Where each part of a rendered `select` stands. */
  lemma SelectLayout(s: Statement)
    requires s.Select?
    ensures var ts := Render(s);
            var ft := if s.fields.Some? then FieldTokens(s.fields.value) else ["*"];
            var f := 1 + |ft|;
            |ts| == f + 2 + |OptWhereTokens(s.where)| &&
            HasAt(ts, 1, ft) && ts[f] == "from" && ts[f + 1] == s.tableName &&
            HasAt(ts, f + 2, OptWhereTokens(s.where))
  {
    var ts := Render(s);
    var ft := if s.fields.Some? then FieldTokens(s.fields.value) else ["*"];
    var wt := OptWhereTokens(s.where);
    assert ts == ["select"] + ft + (["from", s.tableName] + wt);
    HasAtMiddle(["select"], ft, ["from", s.tableName] + wt);
    assert ts == (["select"] + ft + ["from", s.tableName]) + wt + [];
    HasAtMiddle(["select"] + ft + ["from", s.tableName], wt, []);
  }

  lemma OptWhereRoundTrip(ts: seq<string>, e: nat, w: Option<Where>)
    requires HasAt(ts, e, OptWhereTokens(w)) && e + |OptWhereTokens(w)| == |ts|
    requires w.Some? ==> WellFormedWhere(w.value)
    ensures OptWhereFrom(ts, e) == Parsed(Ok(w), |ts|)
  {
    if w.Some? {
      assert ts[e + 0] == WhereTokens(w.value)[0];
      WhereRoundTrip(ts, e, w.value);
    }
  }

  lemma SelectColsRoundTrip(ts: seq<string>, fields: Option<seq<string>>)
    requires fields.None? ==> 2 <= |ts| && ts[1] == "*"
    requires fields.Some? ==>
      var fs := fields.value;
      |fs| >= 1 && fs[0] != "*" && (forall i :: 0 <= i < |fs| ==> IsName(fs[i])) &&
      HasAt(ts, 1, FieldTokens(fs)) && At(ts, 1 + |FieldTokens(fs)|) != ","
    ensures SelectColsFixed(ts, 1) ==
      Parsed(Ok(fields), if fields.Some? then 1 + |FieldTokens(fields.value)| else 2)
  {
    if fields.Some? {
      var fs := fields.value;
      assert ts[1 + 0] == FieldTokens(fs)[0] == fs[0];
      FieldsFixedRoundTrip(ts, 1, [], fs);
      EmptyAppend(fs);
    }
  }

  lemma SelectFixedFromOk(ts: seq<string>, p: nat, fields: Option<seq<string>>, q: nat, w: Option<Where>)
    requires p <= |ts| && SelectColsFixed(ts, p) == Parsed(Ok(fields), q)
    requires q + 2 <= |ts| && ts[q] == "from" && IsName(ts[q + 1])
    requires OptWhereFrom(ts, q + 2) == Parsed(Ok(w), |ts|)
    ensures SelectFixedFrom(ts, p) == Parsed(Ok(Select(fields, ts[q + 1], w)), |ts|)
  {
  }

  lemma SelectTokensRoundTrip(ts: seq<string>, s: Statement)
    requires s.Select? && WellFormed(s)
    requires var ft := if s.fields.Some? then FieldTokens(s.fields.value) else ["*"];
             var f := 1 + |ft|;
             |ts| == f + 2 + |OptWhereTokens(s.where)| &&
             HasAt(ts, 1, ft) && ts[f] == "from" && ts[f + 1] == s.tableName &&
             HasAt(ts, f + 2, OptWhereTokens(s.where))
    ensures SelectFixedFrom(ts, 1) == Parsed(Ok(s), |ts|)
  {
    var ft := if s.fields.Some? then FieldTokens(s.fields.value) else ["*"];
    var f := 1 + |ft|;
    assert ts[1 + 0] == ft[0];
    SelectColsRoundTrip(ts, s.fields);
    OptWhereRoundTrip(ts, f + 2, s.where);
    SelectFixedFromOk(ts, 1, s.fields, f, s.where);
  }

  lemma SelectRoundTrip(s: Statement)
    requires s.Select? && WellFormed(s)
    ensures SelectFixedFrom(Render(s), 1) == Parsed(Ok(s), |Render(s)|)
  {
    SelectLayout(s);
    SelectTokensRoundTrip(Render(s), s);
  }

  lemma InsertTokensRoundTrip(ts: seq<string>, s: Statement)
    requires s.Insert? && WellFormed(s)
    requires |ts| == 4 + |s.values| && ts[1] == "into" && ts[2] == s.tableName && ts[3] == "values"
    requires HasAt(ts, 4, s.values)
    ensures InsertFrom(ts, 1) == Parsed(Ok(s), |ts|)
  {
    ValuesRoundTrip(ts, 3, [], s.values);
    assert [] + s.values == s.values;
  }

  lemma InsertRoundTrip(s: Statement)
    requires s.Insert? && WellFormed(s)
    ensures InsertFrom(Render(s), 1) == Parsed(Ok(s), |Render(s)|)
  {
    var ts := Render(s);
    assert ts == ["insert", "into", s.tableName, "values"] + s.values + [];
    HasAtMiddle(["insert", "into", s.tableName, "values"], s.values, []);
    InsertTokensRoundTrip(ts, s);
  }

  lemma DeleteRoundTrip(s: Statement)
    requires s.Delete? && WellFormed(s)
    ensures DeleteFrom(Render(s), 1) == Parsed(Ok(s), |Render(s)|)
  {
    var ts := Render(s);
    assert ts == ["delete", "from", s.tableName] + WhereTokens(s.condition) + [];
    HasAtMiddle(["delete", "from", s.tableName], WhereTokens(s.condition), []);
    WhereRoundTrip(ts, 3, s.condition);
  }

  lemma UpdateFromOk(ts: seq<string>, p: nat, w: Option<Where>)
    requires p + 5 <= |ts| && IsName(ts[p]) && ts[p + 1] == "set" && ts[p + 3] == "="
    requires OptWhereFrom(ts, p + 5) == Parsed(Ok(w), |ts|)
    ensures UpdateFrom(ts, p) == Parsed(Ok(Update(ts[p], ts[p + 2], ts[p + 4], w)), |ts|)
  {
  }

  lemma UpdateRoundTrip(s: Statement)
    requires s.Update? && WellFormed(s)
    ensures UpdateFrom(Render(s), 1) == Parsed(Ok(s), |Render(s)|)
  {
    var ts := Render(s);
    var a := ["update", s.tableName, "set", s.fieldName, "=", s.value];
    assert ts == a + OptWhereTokens(s.where) + [];
    HasAtMiddle(a, OptWhereTokens(s.where), []);
    OptWhereRoundTrip(ts, 6, s.where);
    UpdateFromOk(ts, 1, s.where);
  }

  /** A statement parser that consumes the whole input makes `parse` accept. */
  lemma AsWrittenAccepts(ts: seq<string>, s: Statement)
    requires |ts| >= 1 && StatementFrom(ts, ts[0], 1) == Parsed(Ok(s), |ts|)
    ensures ParseTokens(ts) == Ok(s)
  {
  }

  lemma FixedAccepts(ts: seq<string>, s: Statement)
    requires |ts| >= 1 && FixedStatementFrom(ts, ts[0], 1) == Parsed(Ok(s), |ts|)
    ensures ParseFixed(ts) == Ok(s)
  {
  }

  lemma CreateParses(s: Statement)
    requires s.Create? && WellFormed(s)
    ensures ParseFixed(Render(s)) == Ok(s) && ParseTokens(Render(s)) == Ok(s)
  {
    var ts := Render(s);
    CreateLayout(s);
    CreateRoundTrip(s, true);
    CreateRoundTrip(s, false);
    AsWrittenAccepts(ts, s);
    FixedAccepts(ts, s);
  }

  lemma SelectParses(s: Statement)
    requires s.Select? && WellFormed(s)
    ensures ParseFixed(Render(s)) == Ok(s)
  {
    var ts := Render(s);
    assert ts[0] == "select";
    SelectRoundTrip(s);
    FixedAccepts(ts, s);
  }

  lemma InsertParses(s: Statement)
    requires s.Insert? && WellFormed(s)
    ensures ParseFixed(Render(s)) == Ok(s) && ParseTokens(Render(s)) == Ok(s)
  {
    var ts := Render(s);
    assert ts[0] == "insert";
    InsertRoundTrip(s);
    AsWrittenAccepts(ts, s);
    FixedAccepts(ts, s);
  }

  lemma DeleteParses(s: Statement)
    requires s.Delete? && WellFormed(s)
    ensures ParseFixed(Render(s)) == Ok(s) && ParseTokens(Render(s)) == Ok(s)
  {
    var ts := Render(s);
    assert ts[0] == "delete";
    DeleteRoundTrip(s);
    AsWrittenAccepts(ts, s);
    FixedAccepts(ts, s);
  }

  lemma UpdateParses(s: Statement)
    requires s.Update? && WellFormed(s)
    ensures ParseFixed(Render(s)) == Ok(s) && ParseTokens(Render(s)) == Ok(s)
  {
    var ts := Render(s);
    assert ts[0] == "update";
    UpdateRoundTrip(s);
    AsWrittenAccepts(ts, s);
    FixedAccepts(ts, s);
  }

  lemma ShortParses(s: Statement)
    requires s.Begin? || s.Commit? || s.Rollback? || s.Show? || s.Drop?
    requires WellFormed(s)
    ensures ParseFixed(Render(s)) == Ok(s) && ParseTokens(Render(s)) == Ok(s)
  {
  }

  /**
   * Every well-formed statement, written out, parses back to itself
   * under the corrected parser; under the parser as written this holds
   * for every kind except `select`.
   */
  lemma ParseRoundTrip(s: Statement)
    requires WellFormed(s)
    ensures ParseFixed(Render(s)) == Ok(s)
    ensures !s.Select? ==> ParseTokens(Render(s)) == Ok(s)
  {
    if s.Create? {
      CreateParses(s);
    } else if s.Select? {
      SelectParses(s);
    } else if s.Insert? {
      InsertParses(s);
    } else if s.Delete? {
      DeleteParses(s);
    } else if s.Update? {
      UpdateParses(s);
    } else {
      ShortParses(s);
    }
  }

  // ---------------------------------------------------------------------
  // The short statements and the dispatch.

  /**
   * `begin` takes no argument, or exactly `isolation level read committed`
   * (read committed), or `isolation level repeatable read`; anything else
   * is rejected.
   */
  lemma BeginForms(rest: seq<string>)
    requires Words(rest)
    ensures ParseTokens(["begin"] + rest) == Ok(Begin(false)) <==>
            rest == [] || rest == ["isolation", "level", "read", "committed"]
    ensures ParseTokens(["begin"] + rest) == Ok(Begin(true)) <==>
            rest == ["isolation", "level", "repeatable", "read"]
    ensures ParseTokens(["begin"] + rest).Ok? ==> ParseTokens(["begin"] + rest).value.Begin?
  {
    var ts := ["begin"] + rest;
    assert forall k :: 1 <= k < |ts| ==> ts[k] == rest[k - 1];
    if 0 < |rest| < 4 || |rest| > 4 {
      assert ts[|ts| - 1] != "";
    } else if |rest| == 4 {
      assert rest == [rest[0], rest[1], rest[2], rest[3]];
    }
  }

  /** `commit`, `abort` and `show` are accepted alone and rejected with anything after them. */
  lemma BareForms(kw: string, rest: seq<string>)
    requires kw == "commit" || kw == "abort" || kw == "show"
    requires Words(rest)
    ensures ParseTokens([kw] + rest) ==
      if rest != [] then Err(InvalidStatement)
      else if kw == "commit" then Ok(Commit)
      else if kw == "abort" then Ok(Rollback)
      else Ok(Show)
  {
    if rest != [] {
      assert ([kw] + rest)[1] == rest[0];
    }
  }

  /**
   * A first token that is no statement keyword is an invalid command,
   * reported as an invalid statement when a second token follows.
   */
  lemma UnknownKeyword(ts: seq<string>)
    requires At(ts, 0) !in {"begin", "commit", "abort", "create", "drop", "select", "insert", "delete", "update", "show"}
    ensures ParseTokens(ts) == (if At(ts, 1) != "" then Err(InvalidStatement) else Err(InvalidCommand))
    ensures ParseFixed(ts) == ParseTokens(ts)
  {
  }

  /** A `create` whose columns run to the end of the input is refused: the table has no index. */
  lemma CreateWithoutIndexList(s: Statement)
    requires s.Create? && WellFormed(s)
    ensures var ts := ["create", "table", s.tableName] + ColumnTokens(s.fieldNames, s.fieldTypes);
            ParseTokens(ts) == Err(TableNoIndex) && ParseFixed(ts) == Err(TableNoIndex)
  {
    var ct := ColumnTokens(s.fieldNames, s.fieldTypes);
    var ts := ["create", "table", s.tableName] + ct;
    assert ts[0] == "create" && ts[1] == "table" && ts[2] == s.tableName;
    HasAtMiddle(["create", "table", s.tableName], ct, []);
    assert ts == ["create", "table", s.tableName] + ct + [];
    ColumnsToEnd(ts, 2, [], [], s.fieldNames, s.fieldTypes);
    CreateFromColumnsErr(ts, 1, true);
    CreateFromColumnsErr(ts, 1, false);
    ParsesTo(ts, "create");
  }

  /** A failure in the column list is the failure of `create`. */
  lemma CreateFromColumnsErr(ts: seq<string>, p: nat, stopAtEnd: bool)
    requires p < |ts| && ts[p] == "table" && IsName(At(ts, p + 1))
    requires ColumnsFrom(ts, p + 1, [], []).r.Err?
    ensures var c := ColumnsFrom(ts, p + 1, [], []);
            CreateFrom(ts, p, stopAtEnd) == Parsed(Err(c.r.error), c.next)
  {
  }

  /** The outcome of `parse`, and of the corrected parse, when the statement's own parser reads to the end. */
  lemma ParsesTo(ts: seq<string>, kind: string)
    requires |ts| >= 1 && ts[0] == kind
    ensures StatementFrom(ts, kind, 1).next == |ts| ==> ParseTokens(ts) == StatementFrom(ts, kind, 1).r
    ensures FixedStatementFrom(ts, kind, 1).next == |ts| ==> ParseFixed(ts) == FixedStatementFrom(ts, kind, 1).r
  {
  }

  lemma {:induction false} ColumnsToEnd(ts: seq<string>, cur: nat, accN: seq<string>, accT: seq<string>,
                                        names: seq<string>, types: seq<string>)
    requires Declared(names, types) && |names| >= 1
    requires HasAt(ts, cur + 1, ColumnTokens(names, types)) && cur + 1 + |ColumnTokens(names, types)| == |ts|
    ensures ColumnsFrom(ts, cur, accN, accT) == Parsed(Err(TableNoIndex), |ts|)
    decreases |names|
  {
    DeclaredTail(names, types);
    var ct := ColumnTokens(names, types);
    if |names| == 1 {
      assert ts[cur + 1 + 0] == ct[0] && ts[cur + 1 + 1] == ct[1];
      ColumnsLast(ts, cur, accN, accT);
    } else {
      var rest := ColumnTokens(names[1..], types[1..]);
      var hd := [names[0], types[0], ","];
      assert ct == hd + rest;
      HasAtSplit(ts, cur + 1, hd, rest);
      assert ts[cur + 1 + 0] == hd[0] && ts[cur + 1 + 1] == hd[1] && ts[cur + 1 + 2] == hd[2];
      ColumnsStep(ts, cur, accN, accT);
      ColumnsToEnd(ts, cur + 3, accN + [names[0]], accT + [types[0]], names[1..], types[1..]);
    }
  }

  // ---------------------------------------------------------------------
  // The findings, as written and corrected.

  /**
   * `select` as written: `select * from t` and `select f from t` are
   * refused, because the field loop stops on `from` and a second `from`
   * is then demanded. The corrected parser accepts them.
   */
  lemma SelectAsWrittenRefused(f: string, t: string)
    requires f == "*" || (IsName(f) && f != "from" && f != "")
    requires IsName(t) && t != "" && t != "from"
    ensures ParseTokens(["select", f, "from", t]) == Err(InvalidStatement)
    ensures ParseFixed(["select", f, "from", t]) == Ok(Select(if f == "*" then None else Some([f]), t, None))
  {
    var s := Select(if f == "*" then None else Some([f]), t, None);
    assert Render(s) == ["select", f, "from", t];
    ParseRoundTrip(s);
  }

  /** ... while a doubled `from` is what the parser as written accepts. */
  lemma SelectAsWrittenWantsTwoFroms(t: string)
    requires IsName(t) && t != ""
    ensures ParseTokens(["select", "*", "from", "from", t]) == Ok(Select(None, t, None))
  {
  }

  /**
   * `create` as written never returns on an index list that the input
   * ends inside: at the end `pop` stays put and "" passes as a name.
   * The corrected parser refuses the statement.
   */
  lemma CreateUnclosedIndexDiverges(t: string, n: string, tp: string, i: string)
    requires IsName(t) && IsName(n) && IsType(tp) && IsName(i)
    ensures ParseTokens(["create", "table", t, n, tp, "(", "index", i]) == Err(Diverges)
  {
    var ts := ["create", "table", t, n, tp, "(", "index", i];
    CreateUnclosedColumns(t, n, tp, i);
    assert IndexFrom(ts, 7, [i], false) == Parsed(Err(Diverges), 8);
    assert IndexFrom(ts, 6, [], false) == Parsed(Err(Diverges), 8);
    assert StatementFrom(ts, "create", 1) == CreateFrom(ts, 1, false) == Parsed(Err(Diverges), 8);
  }

  /** The corrected parser refuses the same input. */
  lemma CreateUnclosedIndexRefused(t: string, n: string, tp: string, i: string)
    requires IsName(t) && IsName(n) && IsType(tp) && IsName(i)
    ensures ParseFixed(["create", "table", t, n, tp, "(", "index", i]) == Err(InvalidCommand)
  {
    var ts := ["create", "table", t, n, tp, "(", "index", i];
    CreateUnclosedColumns(t, n, tp, i);
    assert IndexFrom(ts, 7, [i], true) == Parsed(Err(InvalidCommand), 8);
    assert IndexFrom(ts, 6, [], true) == Parsed(Err(InvalidCommand), 8);
    assert FixedStatementFrom(ts, "create", 1) == CreateFrom(ts, 1, true) == Parsed(Err(InvalidCommand), 8);
  }

  lemma CreateUnclosedColumns(t: string, n: string, tp: string, i: string)
    requires IsName(n) && IsType(tp)
    ensures ColumnsFrom(["create", "table", t, n, tp, "(", "index", i], 2, [], []) == Parsed(Ok(([n], [tp])), 5)
  {
    var ts := ["create", "table", t, n, tp, "(", "index", i];
    ColumnsStep(ts, 2, [], []);
    assert [] + [n] == [n] && [] + [tp] == [tp];
  }

  lemma {:induction false} IndexFixedAgrees(ts: seq<string>, cur: nat, acc: seq<string>)
    requires cur <= |ts|
    ensures IndexFrom(ts, cur, acc, true) ==
      if IndexFrom(ts, cur, acc, false).r == Err(Diverges) then Invalid(|ts|) else IndexFrom(ts, cur, acc, false)
    decreases |ts| - cur
  {
    var q := Next(ts, cur);
    var field := At(ts, q);
    if field != ")" && IsName(field) && q != |ts| {
      IndexFixedAgrees(ts, q, acc + [field]);
    }
  }

  lemma CreateFixedAgrees(ts: seq<string>, p: nat)
    requires p <= |ts|
    ensures CreateFrom(ts, p, true) ==
      if CreateFrom(ts, p, false).r == Err(Diverges) then Invalid(|ts|) else CreateFrom(ts, p, false)
  {
    if At(ts, p) == "table" && IsName(At(ts, Next(ts, p))) {
      var cols := ColumnsFrom(ts, Next(ts, p), [], []);
      if cols.r.Ok? && |cols.r.value.0| != 0 && |cols.r.value.1| != 0 {
        var c := Next(ts, cols.next);
        if At(ts, c) == "index" {
          IndexFixedAgrees(ts, c, []);
        }
      }
    }
  }

  /**
   * Outside `select`, the corrected parser differs from the one as
   * written only where that one never returns, and it never reports
   * divergence itself.
   */
  lemma ParseFixedAgrees(ts: seq<string>)
    ensures ParseFixed(ts) != Err(Diverges)
    ensures At(ts, 0) != "select" ==>
      ParseFixed(ts) == if ParseTokens(ts) == Err(Diverges) then Err(InvalidCommand) else ParseTokens(ts)
  {
    var kind, p := At(ts, 0), Next(ts, 0);
    if kind == "create" {
      CreateFixedAgrees(ts, p);
      assert StatementFrom(ts, kind, p) == CreateFrom(ts, p, false);
    }
  }
}
