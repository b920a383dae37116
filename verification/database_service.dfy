/**
 * DatabaseService: record access over a DBAL connection. Every write runs
 * between one beginTransaction and one commit. Rows fetched from the
 * database, affected-row counts, table columns and the id NEWID() generates
 * are inputs of the operations.
 */
module DatabaseServices {
  import opened Php
  import opened Wrappers
  import opened Dbal
  import opened ServiceCommon

  /** One key/value pair of the record given to UpdateRecord, in the array's order. */
  datatype Entry = Entry(key: string, value: Value)

  /** An input key targets a column when it is the column's name or the name with a leading underscore. */
  predicate Targets(inputKey: string, column: string)
  {
    inputKey == column || inputKey == "_" + column
  }

  /** The assignments the inner loop makes for one input entry. */
  function Retargeted(entry: Entry, existing: Row): Row
  {
    map k | k in existing && Targets(entry.key, k) :: NullIfBlank(entry.value)
  }

  /** `$changedValue` after the nested loop has seen `record`, entry by entry. */
  function ChangeSet(record: seq<Entry>, existing: Row): (changes: Row)
    ensures changes.Keys <= existing.Keys
    ensures forall k :: k in changes ==> !(changes[k].Str? && IsBlank(changes[k].s))
  {
    if record == [] then map[]
    else ChangeSet(record[..|record| - 1], existing) + Retargeted(record[|record| - 1], existing)
  }

  /** A column is changed exactly when it is in the current row and some input key targets it; other keys are ignored. */
  lemma {:induction false} ChangeSetColumns(record: seq<Entry>, existing: Row, column: string)
    ensures column in ChangeSet(record, existing) <==>
      column in existing && exists i :: 0 <= i < |record| && Targets(record[i].key, column)
  {
    if record != [] {
      var last := |record| - 1;
      var init := record[..last];
      ChangeSetColumns(init, existing, column);
      if column in ChangeSet(init, existing) {
        var i :| 0 <= i < |init| && Targets(init[i].key, column);
        assert record[i] == init[i];
      }
      if column in existing && exists i :: 0 <= i < |record| && Targets(record[i].key, column) {
        var i :| 0 <= i < |record| && Targets(record[i].key, column);
        if i < last {
          assert init[i] == record[i];
        }
      }
    }
  }

  /** The last input entry that targets a column decides its new value, with a blank string turned into null. */
  lemma {:induction false} ChangeSetLaterWins(record: seq<Entry>, existing: Row, column: string, i: nat)
    requires column in existing && i < |record| && Targets(record[i].key, column)
    requires forall j :: i < j < |record| ==> !Targets(record[j].key, column)
    ensures column in ChangeSet(record, existing)
    ensures ChangeSet(record, existing)[column] == NullIfBlank(record[i].value)
  {
    var last := |record| - 1;
    if i < last {
      var init := record[..last];
      assert init[i] == record[i];
      assert forall j :: i < j < |init| ==> init[j] == record[j];
      ChangeSetLaterWins(init, existing, column, i);
      assert column !in Retargeted(record[last], existing);
    }
  }

  /** The assignments for one input entry restricted to the columns in `seen`. */
  function RetargetedWithin(entry: Entry, existing: Row, seen: set<string>): Row
  {
    map k | k in existing && k in seen && Targets(entry.key, k) :: NullIfBlank(entry.value)
  }

  lemma RetargetedWithinStep(entry: Entry, existing: Row, seen: set<string>, column: string)
    requires column in existing
    ensures RetargetedWithin(entry, existing, seen + {column}) ==
      if Targets(entry.key, column) then RetargetedWithin(entry, existing, seen)[column := NullIfBlank(entry.value)]
      else RetargetedWithin(entry, existing, seen)
  {
  }

  lemma UnionUpdate(a: Row, b: Row, k: string, v: Value)
    ensures (a + b)[k := v] == a + b[k := v]
  {
  }

  /** The inner foreach of UpdateRecord: one input entry against every column of the current row. */
  method ApplyEntry(changed: Row, entry: Entry, existing: Row) returns (updated: Row)
    ensures updated == changed + Retargeted(entry, existing)
  {
    updated := changed;
    var newValue := entry.value;
    var pending := existing.Keys;
    ghost var seen: set<string> := {};
    while pending != {}
      invariant pending <= existing.Keys && seen == existing.Keys - pending
      invariant newValue == entry.value || newValue == NullIfBlank(entry.value)
      invariant updated == changed + RetargetedWithin(entry, existing, seen)
      decreases pending
    {
      var existingKey :| existingKey in pending;
      RetargetedWithinStep(entry, existing, seen, existingKey);
      if entry.key == "_" + existingKey || entry.key == existingKey {
        if newValue.Str? && IsBlank(newValue.s) {
          newValue := Null;
        }
        UnionUpdate(changed, RetargetedWithin(entry, existing, seen), existingKey, newValue);
        updated := updated[existingKey := newValue];
      }
      pending := pending - {existingKey};
      seen := seen + {existingKey};
    }
    assert RetargetedWithin(entry, existing, seen) == Retargeted(entry, existing);
  }

  /** The outer foreach of UpdateRecord that fills `$changedValue`. */
  method CollectChanges(record: seq<Entry>, existing: Row) returns (changed: Row)
    ensures changed == ChangeSet(record, existing)
  {
    changed := map[];
    for i := 0 to |record|
      invariant changed == ChangeSet(record[..i], existing)
    {
      changed := ApplyEntry(changed, record[i], existing);
      assert record[..i + 1][..i] == record[..i];
    }
    assert record[..|record|] == record;
  }

  const ReturnTypeError := "Return value must be of type array, bool returned"
  const IdTypeError := "Argument #2 ($id) must be of type string"

  /** SelectRecord is declared to return an array: a missing row (false from fetchAssociative) is a TypeError. */
  function SelectRecord(fetched: Option<Row>): (r: Result<Row, string>)
    ensures r.Success? <==> fetched.Some?
    ensures r.Success? ==> r.value == fetched.value
  {
    if fetched.Some? then Success(fetched.value) else Failure(ReturnTypeError)
  }

  /** `$record[idKey] ?? GetUniqueId()`: the supplied id unless it is absent or null. */
  function DefaultId(record: Row, idKey: string, newId: string): (id: Value)
    ensures id != Null
    ensures idKey in record && record[idKey] != Null ==> id == record[idKey]
    ensures idKey !in record || record[idKey] == Null ==> id == Str(newId)
  {
    if idKey in record && record[idKey] != Null then record[idKey] else Str(newId)
  }

  /** The final SelectRecord of InsertRecord: under strict types a non-string id is a TypeError. */
  function ReadBack(id: Value, fetched: Option<Row>): (r: Result<Row, string>)
    ensures r.Success? <==> id.Str? && fetched.Some?
    ensures r.Success? ==> r.value == fetched.value
  {
    if !id.Str? then Failure(IdTypeError) else SelectRecord(fetched)
  }

  /**
   * A supplied id that is not null but is skipped by the filter (a blank
   * string, false, 0) is kept as the id, yet never sent with the insert.
   */
  lemma SuppliedIdMayBeLeftOut(record: Row, idKey: string, newId: string, columns: seq<string>)
    requires idKey in record && record[idKey] != Null && Skipped(record[idKey])
    ensures DefaultId(record, idKey, newId) == record[idKey]
    ensures idKey !in InsertValues(record[idKey := DefaultId(record, idKey, newId)], columns)
  {
  }

  lemma BlankIdExample()
    ensures DefaultId(map["id" := Str(" ")], "id", "7C9E") == Str(" ")
    ensures "id" !in InsertValues(map["id" := Str(" ")], ["id"])
  {
  }

  class DatabaseService {
    const connection: Connection
    const idKey: string

    constructor (connection: Connection, idKey: string)
      ensures this.connection == connection && this.idKey == idKey
    {
      this.connection := connection;
      this.idKey := idKey;
    }

    /** `__destruct`. */
    method Destruct()
      modifies connection
      ensures old(connection.connected) ==>
        && !connection.connected && connection.level == 0
        && connection.log == old(connection.log) + RollBacks(old(connection.level) / 2) + [Closed]
      ensures !old(connection.connected) ==> unchanged(connection)
    {
      CloseConnection(connection);
    }

    /** DeleteRecord: one bracketed delete; returns the affected-row count. */
    method DeleteRecord(table: string, id: string, affected: int) returns (r: int)
      modifies connection
      ensures connection.connected && connection.level == old(connection.level)
      ensures connection.log == old(connection.log) + Bracketed(Delete(table, idKey, id))
      ensures r == affected
    {
      connection.BeginTransaction();
      connection.ExecuteStatement(Delete(table, idKey, id));
      connection.Commit();
      r := affected;
    }

    /** ExecuteStatement: bracketed unless `transactional` is false; returns the affected-row count. */
    method ExecuteStatement(statement: string, parameters: Row, transactional: bool, affected: int) returns (r: int)
      modifies connection
      ensures connection.connected && connection.level == old(connection.level)
      ensures transactional ==> connection.log == old(connection.log) + Bracketed(Raw(statement, parameters))
      ensures !transactional ==> connection.log == old(connection.log) + [Executed(Raw(statement, parameters))]
      ensures r == affected
    {
      if transactional {
        connection.BeginTransaction();
      }
      connection.ExecuteStatement(Raw(statement, parameters));
      if transactional {
        connection.Commit();
      }
      r := affected;
    }

    /** InsertRecord: default the id, send the kept columns in one bracketed insert, read the row back by id. */
    method InsertRecord(table: string, record: Row, columns: seq<string>, newId: string, fetched: Option<Row>)
      returns (r: Result<Row, string>)
      modifies connection
      ensures connection.connected && connection.level == old(connection.level)
      ensures connection.log == old(connection.log)
        + Bracketed(Insert(table, InsertValues(record[idKey := DefaultId(record, idKey, newId)], columns)))
      ensures r == ReadBack(DefaultId(record, idKey, newId), fetched)
    {
      var row := record[idKey := DefaultId(record, idKey, newId)];
      var values := CollectInsertValues(row, columns);
      connection.BeginTransaction();
      connection.ExecuteStatement(Insert(table, values));
      connection.Commit();
      r := ReadBack(row[idKey], fetched);
    }

    /**
     * UpdateRecord: read the current row (which connects a lazy connection),
     * build the change set; an empty one returns false without a write,
     * otherwise one bracketed update and the result says whether any row was
     * affected.
     */
    method UpdateRecord(table: string, id: string, record: seq<Entry>, fetched: Option<Row>, affected: int)
      returns (r: Result<bool, string>)
      modifies connection
      ensures connection.connected && connection.level == old(connection.level)
      ensures fetched.None? ==> r == Failure(ReturnTypeError) && connection.log == old(connection.log)
      ensures fetched.Some? && ChangeSet(record, fetched.value) == map[] ==>
        r == Success(false) && connection.log == old(connection.log)
      ensures fetched.Some? && ChangeSet(record, fetched.value) != map[] ==>
        && r == Success(affected > 0)
        && connection.connected && connection.level == old(connection.level)
        && connection.log == old(connection.log) + Bracketed(Update(table, ChangeSet(record, fetched.value), idKey, id))
    {
      connection.Query();
      var existing := SelectRecord(fetched);
      if existing.Failure? {
        return Failure(existing.error);
      }
      var changed := CollectChanges(record, existing.value);
      if |changed| == 0 {
        return Success(false);
      }
      connection.BeginTransaction();
      connection.ExecuteStatement(Update(table, changed, idKey, id));
      connection.Commit();
      r := Success(affected > 0);
    }
  }
}
