/**
 * The part of a Doctrine DBAL connection the services depend on: whether it
 * is connected, its transaction nesting level, and the sequence of writes
 * and transaction operations issued on it. SQL text is not modelled; a
 * statement records what it writes.
 */
module Dbal {
  import opened Php

  /** A record or result row: column name to value. */
  type Row = map<string, Value>

  datatype Statement =
    | Delete(table: string, idKey: string, id: string)
    | Insert(table: string, values: Row)
    | Update(table: string, values: Row, idKey: string, id: string)
    | Raw(sql: string, parameters: Row)

  datatype Op = Began | Executed(statement: Statement) | Committed | RolledBack | Closed

  /** One write between beginTransaction and commit. */
  function Bracketed(statement: Statement): seq<Op>
  {
    [Began, Executed(statement), Committed]
  }

  /** `n` consecutive rollBack calls. */
  function RollBacks(n: nat): (ops: seq<Op>)
    ensures |ops| == n && forall i :: 0 <= i < n ==> ops[i] == RolledBack
  {
    seq(n, _ => RolledBack)
  }

  class Connection {
    var connected: bool
    var level: nat
    var log: seq<Op>

    /** A connection handed to a service, possibly with transactions already open. */
    constructor (connected: bool, level: nat)
      requires connected || level == 0
      ensures this.connected == connected && this.level == level && log == []
    {
      this.connected := connected;
      this.level := level;
      log := [];
    }

    /** beginTransaction connects if needed and opens one more nesting level. */
    method BeginTransaction()
      modifies this
      ensures connected && level == old(level) + 1 && log == old(log) + [Began]
    {
      connected := true;
      level := level + 1;
      log := log + [Began];
    }

    /** commit closes the innermost level; with no active transaction DBAL throws. */
    method Commit()
      requires level > 0
      modifies this
      ensures connected == old(connected) && level == old(level) - 1 && log == old(log) + [Committed]
    {
      level := level - 1;
      log := log + [Committed];
    }

    /** rollBack closes the innermost level; with no active transaction DBAL throws. */
    method RollBack()
      requires level > 0
      modifies this
      ensures connected == old(connected) && level == old(level) - 1 && log == old(log) + [RolledBack]
    {
      level := level - 1;
      log := log + [RolledBack];
    }

    /** executeQuery connects if needed; a read leaves no entry in the log. */
    method Query()
      modifies this
      ensures connected && level == old(level) && log == old(log)
    {
      connected := true;
    }

    /** executeStatement connects if needed and runs one write. */
    method ExecuteStatement(statement: Statement)
      modifies this
      ensures connected && level == old(level) && log == old(log) + [Executed(statement)]
    {
      connected := true;
      log := log + [Executed(statement)];
    }

    /** close drops the connection and resets the nesting level. */
    method Close()
      modifies this
      ensures !connected && level == 0 && log == old(log) + [Closed]
    {
      connected := false;
      level := 0;
      log := log + [Closed];
    }
  }
}
