/**
 * The statement executor of one client connection (`Executor`). It keeps
 * the connection's open transaction (`xid`, 0 when none) and wraps every
 * statement other than `begin`, `commit` and `abort` that arrives outside
 * a transaction in a temporary transaction of its own: begun before the
 * statement, committed after it succeeds, aborted after it fails.
 *
 * The table manager is seen through its answers: `Answers` holds what its
 * `begin`, `commit`, `abort` and statement operations return for this one
 * statement (each is asked at most once), and the executor reports the
 * calls it made. The statement arrives as its token list and is parsed
 * by the corrected parser.
 */
module Executor {
  import opened Bytes
  import opened Outcomes
  import opened SqlParser
  import SqlGrammar

  /** `BeginRes`: the new transaction and the text sent back for `begin`. */
  datatype BeginRes = BeginRes(xid: I64, result: seq<Byte>)

  /** What the table manager answers to each call it may receive. */
  datatype Answers = Answers(begin: BeginRes, op: Result<seq<Byte>>, commit: Result<seq<Byte>>, abort: Result<seq<Byte>>)

  /** A call into the table manager. */
  datatype Call =
    | BeginCall(repeatableRead: bool)
    | CommitCall(xid: I64)
    | AbortCall(xid: I64)
    | OpCall(xid: I64, stat: Statement)

  /**
   * The reply to the client (`None` is a null result), the transaction
   * left open on the connection, and the calls made on the way.
   */
  datatype Outcome = Outcome(reply: Result<Option<seq<Byte>>>, xid: I64, calls: seq<Call>)

  /** Statements that `execute(Object)` runs inside a transaction. */
  predicate Transactional(s: Statement)
  {
    !(s.Begin? || s.Commit? || s.Rollback?)
  }

  /**
   * `execute(Object)`: the table-manager call for the statement, inside
   * the open transaction or a temporary one. `drop` has no branch and
   * answers null without a call. When the closing commit or abort of a
   * temporary transaction throws, that exception is what the client
   * sees, and the transaction stays on the connection.
   */
  function RunInTransaction(xid: I64, s: Statement, a: Answers): Outcome
    requires Transactional(s)
  {
    var tmp := xid == 0;
    var x := if tmp then a.begin.xid else xid;
    var begun := if tmp then [BeginCall(false)] else [];
    var res: Result<Option<seq<Byte>>> :=
      if s.Drop? then Ok(None)
      else if a.op.Ok? then Ok(Some(a.op.value))
      else Err(a.op.error);
    var worked := begun + (if s.Drop? then [] else [OpCall(x, s)]);
    if !tmp then Outcome(res, x, worked)
    else if res.Err? then
      if a.abort.Err? then Outcome(Err(a.abort.error), x, worked + [AbortCall(x)])
      else Outcome(res, 0, worked + [AbortCall(x)])
    else
      if a.commit.Err? then Outcome(Err(a.commit.error), x, worked + [CommitCall(x)])
      else Outcome(res, 0, worked + [CommitCall(x)])
  }

  /** `execute(byte[])` on a parsed statement. */
  function Run(xid: I64, stat: Result<Statement>, a: Answers): Outcome
  {
    if stat.Err? then Outcome(Err(stat.error), xid, [])
    else
      match stat.value
      case Begin(rr) =>
        if xid != 0 then Outcome(Err(NestedTransaction), xid, [])
        else Outcome(Ok(Some(a.begin.result)), a.begin.xid, [BeginCall(rr)])
      case Commit =>
        if xid == 0 then Outcome(Err(NoTransaction), xid, [])
        else if a.commit.Err? then Outcome(Err(a.commit.error), xid, [CommitCall(xid)])
        else Outcome(Ok(Some(a.commit.value)), 0, [CommitCall(xid)])
      case Rollback =>
        if xid == 0 then Outcome(Err(NoTransaction), xid, [])
        else if a.abort.Err? then Outcome(Err(a.abort.error), xid, [AbortCall(xid)])
        else Outcome(Ok(Some(a.abort.value)), 0, [AbortCall(xid)])
      case _ => RunInTransaction(xid, stat.value, a)
  }

  class Executor {
    var xid: I64

    constructor ()
      ensures xid == 0
    {
      xid := 0;
    }

    /** `execute(byte[])`: parse, then run the statement. */
    method Execute(tokens: seq<string>, a: Answers) returns (reply: Result<Option<seq<Byte>>>, calls: seq<Call>)
      modifies this
      ensures Outcome(reply, xid, calls) == Run(old(xid), SqlGrammar.ParseFixed(tokens), a)
    {
      var stat := SqlGrammar.ParseFixed(tokens);
      if stat.Err? {
        return Err(stat.error), [];
      }
      var s := stat.value;
      if s.Begin? {
        if xid != 0 {
          return Err(NestedTransaction), [];
        }
        xid := a.begin.xid;
        return Ok(Some(a.begin.result)), [BeginCall(s.repeatableRead)];
      } else if s.Commit? {
        if xid == 0 {
          return Err(NoTransaction), [];
        }
        calls := [CommitCall(xid)];
        if a.commit.Err? {
          return Err(a.commit.error), calls;
        }
        xid := 0;
        return Ok(Some(a.commit.value)), calls;
      } else if s.Rollback? {
        if xid == 0 {
          return Err(NoTransaction), [];
        }
        calls := [AbortCall(xid)];
        if a.abort.Err? {
          return Err(a.abort.error), calls;
        }
        xid := 0;
        return Ok(Some(a.abort.value)), calls;
      }
      reply, calls := ExecuteStatement(s, a);
    }

    /** `execute(Object)`: the statement inside the open or a temporary transaction. */
    method ExecuteStatement(s: Statement, a: Answers) returns (reply: Result<Option<seq<Byte>>>, calls: seq<Call>)
      requires Transactional(s)
      modifies this
      ensures Outcome(reply, xid, calls) == RunInTransaction(old(xid), s, a)
    {
      var tmpTransaction := false;
      calls := [];
      if xid == 0 {
        tmpTransaction := true;
        calls := calls + [BeginCall(false)];
        xid := a.begin.xid;
      }
      // the try block
      if s.Drop? {
        reply := Ok(None);
      } else {
        calls := calls + [OpCall(xid, s)];
        reply := if a.op.Ok? then Ok(Some(a.op.value)) else Err(a.op.error);
      }
      // the finally block
      if tmpTransaction {
        if reply.Err? {
          calls := calls + [AbortCall(xid)];
          if a.abort.Err? {
            reply := Err(a.abort.error);
            return;
          }
        } else {
          calls := calls + [CommitCall(xid)];
          if a.commit.Err? {
            reply := Err(a.commit.error);
            return;
          }
        }
        xid := 0;
      }
    }

    /** `close`: a transaction still open on the connection is aborted. */
    method Close(abort: Result<seq<Byte>>) returns (r: Result<()>, calls: seq<Call>)
      modifies this
      ensures old(xid) == 0 ==> r == Ok(()) && calls == [] && xid == 0
      ensures old(xid) != 0 ==> calls == [AbortCall(old(xid))] && xid == old(xid) &&
                                 (r.Err? <==> abort.Err?) && (r.Err? ==> r.error == abort.error)
    {
      if xid != 0 {
        calls := [AbortCall(xid)];
        if abort.Err? {
          return Err(abort.error), calls;
        }
        return Ok(()), calls;
      }
      return Ok(()), [];
    }
  }

  // ---------------------------------------------------------------------
  // What the executor promises.

  /** A statement that does not parse changes nothing and calls nothing. */
  lemma ParseErrorChangesNothing(xid: I64, tokens: seq<string>, a: Answers)
    requires SqlGrammar.ParseFixed(tokens).Err?
    ensures var o := Run(xid, SqlGrammar.ParseFixed(tokens), a);
            o.reply == Err(SqlGrammar.ParseFixed(tokens).error) && o.xid == xid && o.calls == []
  {
  }

  /** `begin` opens a transaction only on a connection that has none. */
  lemma BeginOpensOnce(xid: I64, rr: bool, a: Answers)
    ensures var o := Run(xid, Ok(Begin(rr)), a);
            (xid != 0 ==> o == Outcome(Err(NestedTransaction), xid, [])) &&
            (xid == 0 ==> o.reply.Ok? && o.xid == a.begin.xid && o.calls == [BeginCall(rr)])
  {
  }

  /**
   * `commit` and `abort` need an open transaction; they close it when
   * the table manager accepts, and leave it open when it throws.
   */
  lemma EndClosesOpenTransaction(xid: I64, s: Statement, a: Answers)
    requires s.Commit? || s.Rollback?
    ensures var o := Run(xid, Ok(s), a);
            var answer := if s.Commit? then a.commit else a.abort;
            (xid == 0 ==> o == Outcome(Err(NoTransaction), 0, [])) &&
            (xid != 0 ==> o.calls == [if s.Commit? then CommitCall(xid) else AbortCall(xid)] &&
                          (o.reply.Ok? <==> answer.Ok?) &&
                          (o.xid == 0 <==> answer.Ok?) &&
                          (answer.Err? ==> o.xid == xid))
  {
  }

  /** Inside an open transaction a statement makes its one call, in that transaction, and leaves it open. */
  lemma ExplicitTransactionStaysOpen(xid: I64, s: Statement, a: Answers)
    requires xid != 0 && Transactional(s)
    ensures var o := Run(xid, Ok(s), a);
            o.xid == xid && o.calls == (if s.Drop? then [] else [OpCall(xid, s)]) &&
            (!s.Drop? ==> (o.reply.Ok? <==> a.op.Ok?))
  {
  }

  /**
   * Outside a transaction a statement runs in a temporary one: begun at
   * read committed, used for the one call, then committed if the call
   * succeeded and aborted if it failed. The connection is left without a
   * transaction unless that closing call itself threw.
   */
  lemma TemporaryTransactionIsClosed(s: Statement, a: Answers)
    requires Transactional(s)
    ensures var o := Run(0, Ok(s), a);
            var x := a.begin.xid;
            var failed := !s.Drop? && a.op.Err?;
            var closing := if failed then AbortCall(x) else CommitCall(x);
            var closed := if failed then a.abort.Ok? else a.commit.Ok?;
            o.calls == [BeginCall(false)] + (if s.Drop? then [] else [OpCall(x, s)]) + [closing] &&
            (closed ==> o.xid == 0) &&
            (!closed ==> o.xid == x && o.reply.Err?) &&
            (o.reply.Ok? <==> !failed && closed)
  {
  }
}
