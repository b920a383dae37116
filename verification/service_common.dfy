/**
 * Code that DatabaseService and QuickDatabaseService share line for line:
 * the column filter of InsertRecord, SelectSingleValue's null mapping, the
 * blank-to-null rule of UpdateRecord and the destructor's rollback loop.
 */
module ServiceCommon {
  import opened Php
  import opened Wrappers
  import opened Dbal

  /** `if (is_string($v) && trim($v) === '') $v = null`. */
  function NullIfBlank(v: Value): (r: Value)
    ensures !(r.Str? && IsBlank(r.s))
    ensures r != v ==> v.Str? && IsBlank(v.s) && r == Null
  {
    if v.Str? && IsBlank(v.s) then Null else v
  }

  /** The skip test of the insert loop: a blank string, or a value loosely equal to null. */
  predicate Skipped(v: Value)
  {
    (v.Str? && IsBlank(v.s)) || LooseEqualsNull(v)
  }

  lemma NonBlankIsKept(s: string)
    requires !IsBlank(s)
    ensures !Skipped(Str(s))
  {
  }

  /** The values InsertRecord sets: entries whose key is a table column and whose value is not skipped. */
  function InsertValues(record: Row, columns: seq<string>): (values: Row)
    ensures values.Keys <= record.Keys
    ensures forall k :: k in values ==> k in columns && values[k] == record[k]
    ensures forall k :: k in values ==> Truthy(values[k]) || values[k] == Str("0")
    ensures forall k :: k in values ==> values[k].Str? ==> !IsBlank(values[k].s)
    ensures forall k :: k in record && k in columns && !Skipped(record[k]) ==> k in values
  {
    map k | k in record && k in columns && !Skipped(record[k]) :: record[k]
  }

  /** The values the insert loop has set after visiting the keys in `visited`. */
  function KeptValues(record: Row, columns: seq<string>, visited: set<string>): Row
    requires visited <= record.Keys
  {
    map k | k in visited && k in columns && !Skipped(record[k]) :: record[k]
  }

  /** Visiting one more key adds it exactly when it is a kept table column. */
  lemma KeptValuesStep(record: Row, columns: seq<string>, visited: set<string>, key: string)
    requires visited <= record.Keys && key in record && key !in visited
    ensures KeptValues(record, columns, visited + {key}) ==
      if key in columns && !Skipped(record[key]) then KeptValues(record, columns, visited)[key := record[key]]
      else KeptValues(record, columns, visited)
  {
  }

  /** The foreach of InsertRecord that calls setValue for each kept column. */
  method CollectInsertValues(record: Row, columns: seq<string>) returns (values: Row)
    ensures values == InsertValues(record, columns)
  {
    values := map[];
    var pending := record.Keys;
    ghost var visited: set<string> := {};
    while pending != {}
      invariant pending !! visited && pending + visited == record.Keys
      invariant values == KeptValues(record, columns, visited)
      decreases pending
    {
      var key :| key in pending;
      KeptValuesStep(record, columns, visited, key);
      if key in columns {
        var value := record[key];
        if !((value.Str? && IsBlank(value.s)) || LooseEqualsNull(value)) {
          values := values[key := value];
        }
      }
      pending := pending - {key};
      visited := visited + {key};
    }
    assert visited == record.Keys;
  }

  /**
   * SelectSingleValue: `fetchOne` gives the first column of the first row,
   * or false when there is no row (`None`); any falsy result becomes null.
   */
  function SelectSingleValue(fetched: Option<Value>): (r: Value)
    ensures r == Null <==> fetched.None? || !Truthy(fetched.value)
    ensures r != Null ==> fetched == Some(r) && Truthy(r)
  {
    if fetched.Some? && Truthy(fetched.value) then fetched.value else Null
  }

  /**
   * Number of rollBack calls `for ($t = 1; $t < level; $t++) rollBack()`
   * makes from counter `t` when every rollBack lowers the level it re-reads.
   */
  function LoopRollBacks(t: nat, level: nat): nat
    decreases level
  {
    if t < level then 1 + LoopRollBacks(t + 1, level - 1) else 0
  }

  lemma {:induction false} LoopRollBacksFrom(t: nat, level: nat)
    ensures LoopRollBacks(t, level) == if t < level then (level - t + 1) / 2 else 0
    decreases level
  {
    if t < level {
      LoopRollBacksFrom(t + 1, level - 1);
    }
  }

  /** The destructor's loop undoes only half of the open levels. */
  lemma DestructorRollsBackHalf(level: nat)
    ensures LoopRollBacks(1, level) == level / 2
  {
    LoopRollBacksFrom(1, level);
  }

  /** `__destruct`: on a connected connection, the rollback loop and then close(). */
  method CloseConnection(connection: Connection)
    modifies connection
    ensures old(connection.connected) ==>
      && !connection.connected && connection.level == 0
      && connection.log == old(connection.log) + RollBacks(old(connection.level) / 2) + [Closed]
    ensures !old(connection.connected) ==> unchanged(connection)
  {
    if connection.connected {
      ghost var start := connection.level;
      var t := 1;
      while t < connection.level
        invariant 1 <= t && connection.connected
        invariant connection.level + (t - 1) == start
        invariant connection.log == old(connection.log) + RollBacks(t - 1)
        invariant (t - 1) + LoopRollBacks(t, connection.level) == LoopRollBacks(1, start)
        decreases connection.level
      {
        connection.RollBack();
        assert RollBacks(t - 1) + [RolledBack] == RollBacks(t);
        t := t + 1;
      }
      DestructorRollsBackHalf(start);
      connection.Close();
    }
  }
}
