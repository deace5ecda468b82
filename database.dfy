/**
 * The database connection as the importer uses it, reduced to the one target
 * table: its column list, the rows the open transaction sees, and the rows as
 * of the last commit. Auto-commit is off, so a transaction is always open;
 * commit and rollback each end it and open the next one.
 */
module Database {
  import opened Wrappers
  import opened Php

  /** A table row: column name to value; Null is SQL NULL, and a column the map lacks reads as NULL. */
  type Row = map<string, Value>

  /** The failure a statement meets when it names columns the table does not have. */
  datatype DbError = UnknownColumns(names: set<string>)

  /** The names among `names` that are not columns of the table. */
  function Unknown(columns: seq<string>, names: set<string>): set<string>
  {
    set n | n in names && n !in columns
  }

  /** The conjunctive predicate `f1 = :f1 AND f2 = :f2 ...`; a NULL on either side never compares equal. */
  predicate Matches(row: Row, where: Row)
  {
    forall f :: f in where ==> where[f].Str? && f in row && row[f] == where[f]
  }

  /** Some row of the table satisfies the lookup `where`. */
  predicate Present(rows: seq<Row>, where: Row)
  {
    exists i :: 0 <= i < |rows| && Matches(rows[i], where)
  }

  /** The number of rows a `SELECT * ... WHERE where` returns; positive exactly when some row matches. */
  function CountMatches(rows: seq<Row>, where: Row): (n: nat)
    ensures n <= |rows|
    ensures n > 0 <==> Present(rows, where)
  {
    if rows == [] then 0
    else
      var init := rows[..|rows| - 1];
      var n := CountMatches(init, where);
      assert forall i :: 0 <= i < |init| ==> init[i] == rows[i];
      n + if Matches(rows[|rows| - 1], where) then 1 else 0
  }

  /** The rows after `UPDATE ... SET entry WHERE where`: each matching row takes the entry's values. */
  function UpdatedRows(rows: seq<Row>, entry: Row, where: Row): seq<Row>
  {
    seq(|rows|, i requires 0 <= i < |rows| => if Matches(rows[i], where) then rows[i] + entry else rows[i])
  }

  class Connection {
    /** The columns of the target table, as schema introspection lists them. */
    const columns: seq<string>
    /** The rows as the open transaction sees them. */
    var rows: seq<Row>
    /** The rows as of the last commit. */
    var committed: seq<Row>

    constructor (columns: seq<string>, rows: seq<Row>)
      ensures this.columns == columns && this.rows == rows && committed == rows
    {
      this.columns := columns;
      this.rows := rows;
      committed := rows;
    }

    /** `SELECT * FROM table WHERE ...` and its `rowCount()`. */
    method Count(where: Row) returns (r: Result<nat, DbError>)
      ensures Unknown(columns, where.Keys) != {} ==> r == Failure(UnknownColumns(Unknown(columns, where.Keys)))
      ensures Unknown(columns, where.Keys) == {} ==> r == Success(CountMatches(rows, where))
    {
      var bad := Unknown(columns, where.Keys);
      if bad != {} {
        return Failure(UnknownColumns(bad));
      }
      var n := 0;
      var i := 0;
      while i < |rows|
        invariant i <= |rows|
        invariant n == CountMatches(rows[..i], where)
      {
        assert rows[..i + 1][..i] == rows[..i];
        if Matches(rows[i], where) {
          n := n + 1;
        }
        i := i + 1;
      }
      assert rows[..|rows|] == rows;
      return Success(n);
    }

    /** `INSERT INTO table (...) VALUES (...)`: the entry becomes a new row. */
    method Insert(entry: Row) returns (r: Outcome<DbError>)
      modifies this`rows
      ensures Unknown(columns, entry.Keys) == {} ==> r == Pass && rows == old(rows) + [entry]
      ensures Unknown(columns, entry.Keys) != {} ==>
        r == Fail(UnknownColumns(Unknown(columns, entry.Keys))) && rows == old(rows)
    {
      var bad := Unknown(columns, entry.Keys);
      if bad != {} {
        return Fail(UnknownColumns(bad));
      }
      rows := rows + [entry];
      return Pass;
    }

    /** `UPDATE table SET ... WHERE ...`: every row matching `where` takes the entry's values. */
    method Update(entry: Row, where: Row) returns (r: Outcome<DbError>)
      modifies this`rows
      ensures Unknown(columns, entry.Keys + where.Keys) == {} ==>
        r == Pass && rows == UpdatedRows(old(rows), entry, where)
      ensures Unknown(columns, entry.Keys + where.Keys) != {} ==>
        r == Fail(UnknownColumns(Unknown(columns, entry.Keys + where.Keys))) && rows == old(rows)
    {
      var bad := Unknown(columns, entry.Keys + where.Keys);
      if bad != {} {
        return Fail(UnknownColumns(bad));
      }
      var updated: seq<Row> := [];
      var i := 0;
      while i < |rows|
        invariant i <= |rows|
        invariant |updated| == i
        invariant forall j :: 0 <= j < i ==>
          updated[j] == if Matches(rows[j], where) then rows[j] + entry else rows[j]
      {
        updated := updated + [if Matches(rows[i], where) then rows[i] + entry else rows[i]];
        i := i + 1;
      }
      rows := updated;
      return Pass;
    }

    /** `commit()`: the open transaction's rows become durable. */
    method Commit()
      modifies this`committed
      ensures committed == rows
    {
      committed := rows;
    }

    /** `rollBack()`: the open transaction's writes are discarded. */
    method RollBack()
      modifies this`rows
      ensures rows == committed
    {
      rows := committed;
    }
  }
}
