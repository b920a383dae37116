/**
 * QuickDatabaseService: the later revision of the record service. It
 * differs from DatabaseService in its id rule for inserts, in SelectRecord
 * answering null for a missing row, in UpdateRecord (blank-to-null, then
 * `array_diff_assoc` against the current row, with no column mapping) and
 * in writes answering true instead of affected-row counts.
 */
module QuickDatabaseServices {
  import opened Php
  import opened Wrappers
  import opened Dbal
  import opened ServiceCommon

  /** SelectRecord: `($record) ?: null`; no row, or an empty one, becomes null. */
  function SelectRecord(fetched: Option<Row>): (r: Option<Row>)
    ensures r.Some? ==> fetched == r && r.value != map[]
    ensures r.None? ==> fetched.None? || fetched.value == map[]
  {
    if fetched.Some? && fetched.value != map[] then fetched else None
  }

  /** The id rule of InsertRecord: the supplied id only when it is a non-blank string, else a generated one. */
  function SuppliedOrNewId(record: Row, idKey: string, newId: string): (id: Value)
    ensures id.Str?
    ensures id == Str(newId) || (idKey in record && id == record[idKey] && !IsBlank(id.s))
    ensures idKey in record && record[idKey].Str? && !IsBlank(record[idKey].s) ==> id == record[idKey]
  {
    if idKey in record && record[idKey].Str? && !IsBlank(record[idKey].s) then record[idKey] else Str(newId)
  }

  /** With a non-blank generated id, the id the row is read back by is always among the inserted values. */
  lemma IdIsAlwaysInserted(record: Row, idKey: string, newId: string, columns: seq<string>)
    requires idKey in columns && !IsBlank(newId)
    ensures var id := SuppliedOrNewId(record, idKey, newId);
      idKey in InsertValues(record[idKey := id], columns) && InsertValues(record[idKey := id], columns)[idKey] == id
  {
    NonBlankIsKept(SuppliedOrNewId(record, idKey, newId).s);
  }

  const ReturnTypeError := "Return value must be of type array, null returned"

  /** The final SelectRecord of InsertRecord, whose declared result is an array: null is a TypeError. */
  function ReadBack(fetched: Option<Row>): (r: Result<Row, string>)
    ensures r.Success? <==> SelectRecord(fetched).Some?
    ensures r.Success? ==> Some(r.value) == fetched
  {
    var row := SelectRecord(fetched);
    if row.Some? then Success(row.value) else Failure(ReturnTypeError)
  }

  /** `$record` after the blank-to-null foreach of UpdateRecord. */
  function BlankToNull(record: Row): Row
  {
    map k | k in record :: NullIfBlank(record[k])
  }

  /** The foreach that rewrites `$record[$key] = null` for every blank string. */
  method NullBlanks(record: Row) returns (result: Row)
    ensures result == BlankToNull(record)
  {
    result := record;
    var pending := record.Keys;
    while pending != {}
      invariant pending <= record.Keys && result.Keys == record.Keys
      invariant forall k :: k in record ==> result[k] == if k in pending then record[k] else NullIfBlank(record[k])
      decreases pending
    {
      var key :| key in pending;
      var value := record[key];
      if value.Str? && IsBlank(value.s) {
        result := result[key := Null];
      }
      pending := pending - {key};
    }
  }

  /** `array_diff_assoc($record, $existing)`: entries whose key is missing from the row or whose value differs as a string. */
  function DiffAssoc(record: Row, existing: Row): Row
  {
    map k | k in record && !(k in existing && StrCast(existing[k]) == StrCast(record[k])) :: record[k]
  }

  /** The values UpdateRecord writes. */
  function Changes(record: Row, existing: Row): Row
  {
    DiffAssoc(BlankToNull(record), existing)
  }

  /**
   * A key is written exactly when it differs from the row as a string or is
   * not in the row at all: there is no `_col` mapping and no column filter.
   */
  lemma ChangesAreUnfilteredDifferences(record: Row, existing: Row, key: string)
    ensures key in Changes(record, existing) <==>
      key in record && (key !in existing || StrCast(existing[key]) != StrCast(NullIfBlank(record[key])))
    ensures key in Changes(record, existing) ==> Changes(record, existing)[key] == NullIfBlank(record[key])
  {
  }

  /**
   * Once the row holds the written values, the same update finds nothing to
   * change: a repeated UpdateRecord returns false and writes nothing.
   */
  lemma UpdateIsIdempotent(record: Row, existing: Row)
    ensures Changes(record, existing + Changes(record, existing)) == map[]
  {
  }

  /** A blank string or null cannot clear a column holding "": both compare equal to it as strings. */
  lemma BlankCannotReplaceEmptyString(record: Row, existing: Row, key: string)
    requires key in record && key in existing && existing[key] == Str("")
    requires record[key] == Null || (record[key].Str? && IsBlank(record[key].s))
    ensures key !in Changes(record, existing)
  {
  }

  class QuickDatabaseService {
    const connection: Connection
    const idKey: string

    constructor (connection: Connection, idKey: string)
      ensures this.connection == connection && this.idKey == idKey
    {
      this.connection := connection;
      this.idKey := idKey;
    }

    /** `__destruct`. */
    method Destruct()
      modifies connection
      ensures old(connection.connected) ==>
        && !connection.connected && connection.level == 0
        && connection.log == old(connection.log) + RollBacks(old(connection.level) / 2) + [Closed]
      ensures !old(connection.connected) ==> unchanged(connection)
    {
      CloseConnection(connection);
    }

    /** DeleteRecord: one bracketed delete; always true. */
    method DeleteRecord(table: string, id: string) returns (r: bool)
      modifies connection
      ensures r
      ensures connection.connected && connection.level == old(connection.level)
      ensures connection.log == old(connection.log) + Bracketed(Delete(table, idKey, id))
    {
      connection.BeginTransaction();
      connection.ExecuteStatement(Delete(table, idKey, id));
      connection.Commit();
      r := true;
    }

    /** ExecuteStatement: bracketed unless `transactional` is false; always true. */
    method ExecuteStatement(statement: string, parameters: Row, transactional: bool) returns (r: bool)
      modifies connection
      ensures r
      ensures connection.connected && connection.level == old(connection.level)
      ensures transactional ==> connection.log == old(connection.log) + Bracketed(Raw(statement, parameters))
      ensures !transactional ==> connection.log == old(connection.log) + [Executed(Raw(statement, parameters))]
    {
      if transactional {
        connection.BeginTransaction();
      }
      connection.ExecuteStatement(Raw(statement, parameters));
      if transactional {
        connection.Commit();
      }
      r := true;
    }

    /** InsertRecord: fix the id, send the kept columns in one bracketed insert, read the row back by id. */
    method InsertRecord(table: string, record: Row, columns: seq<string>, newId: string, fetched: Option<Row>)
      returns (r: Result<Row, string>)
      modifies connection
      ensures connection.connected && connection.level == old(connection.level)
      ensures connection.log == old(connection.log)
        + Bracketed(Insert(table, InsertValues(record[idKey := SuppliedOrNewId(record, idKey, newId)], columns)))
      ensures r == ReadBack(fetched)
    {
      var row := record[idKey := SuppliedOrNewId(record, idKey, newId)];
      var values := CollectInsertValues(row, columns);
      connection.BeginTransaction();
      connection.ExecuteStatement(Insert(table, values));
      connection.Commit();
      r := ReadBack(fetched);
    }

    /**
     * UpdateRecord: the read of the current row connects a lazy connection;
     * false without a write when the row is missing or nothing differs;
     * otherwise one bracketed update of the differing values and true.
     */
    method UpdateRecord(table: string, id: string, record: Row, fetched: Option<Row>) returns (r: bool)
      modifies connection
      ensures connection.connected && connection.level == old(connection.level)
      ensures SelectRecord(fetched).None? ==> !r && connection.log == old(connection.log)
      ensures SelectRecord(fetched).Some? && Changes(record, fetched.value) == map[] ==>
        !r && connection.log == old(connection.log)
      ensures SelectRecord(fetched).Some? && Changes(record, fetched.value) != map[] ==>
        && r
        && connection.connected && connection.level == old(connection.level)
        && connection.log == old(connection.log) + Bracketed(Update(table, Changes(record, fetched.value), idKey, id))
    {
      connection.Query();
      var existing := SelectRecord(fetched);
      if existing.None? {
        return false;
      }
      var nulled := NullBlanks(record);
      var changes := DiffAssoc(nulled, existing.value);
      if |changes| == 0 {
        return false;
      }
      connection.BeginTransaction();
      connection.ExecuteStatement(Update(table, changes, idKey, id));
      connection.Commit();
      r := true;
    }
  }
}
