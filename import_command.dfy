/**
 * The `import` console command as an object: its options, its database
 * connection and the two counters it keeps across files. Each method does
 * what the command's method of the same name does, step by step, and is
 * proved to agree with the functions of `ImportSpec`.
 */
module ImportCommand {
  import opened Wrappers
  import opened Php
  import opened Database
  import opened ImportSpec

  class Importer {
    /** The command-line options. */
    const options: Options
    /** The connection, with auto-commit off. */
    const db: Connection
    /** Rows inserted so far, over all files. */
    var createCount: nat
    /** Rows updated so far, over all files. */
    var updateCount: nat

    constructor (options: Options, db: Connection)
      ensures this.options == options && this.db == db
      ensures createCount == 0 && updateCount == 0
    {
      this.options := options;
      this.db := db;
      createCount := 0;
      updateCount := 0;
    }

    /** The counters and the rows the open transaction sees. */
    function State(): Tally
      reads this, db
    {
      Tally(db.rows, createCount, updateCount)
    }

    /**
     * `getColumnAssignments`: the `--column` items in order, then an identity
     * entry for every header column no item uses as its source.
     */
    method GetColumnAssignments(header: seq<string>) returns (columns: Assignments)
      ensures columns == ColumnAssignmentsOf(header, options.columns)
    {
      var items := options.columns;
      columns := map[];
      var i := 0;
      while i < |items|
        invariant i <= |items|
        invariant columns == Assoc(SplitItems(items)[..i])
      {
        var (dbName, fileName) := SplitFirst(':', items[i]);
        ExplicitAssignmentsStep(items, i);
        columns := columns[dbName := fileName];
        i := i + 1;
      }
      assert SplitItems(items)[..i] == SplitItems(items);
      assert columns == ExplicitAssignments(items);
      ghost var explicit := columns;
      var unmapped := ArrayDiff(header, SourceNames(columns));
      var j := 0;
      while j < |unmapped|
        invariant j <= |unmapped|
        invariant columns == explicit + IdentityOf(unmapped[..j])
      {
        IdentityOfSnoc(explicit, unmapped, j);
        columns := columns[unmapped[j] := Str(unmapped[j])];
        j := j + 1;
      }
      assert unmapped[..j] == unmapped;
      assert columns == explicit + IdentityOf(unmapped);
      ColumnAssignmentsByDiff(header, items);
    }

    /**
     * `checkDatabaseColumns`: fails, naming a missing column, exactly when
     * some assigned database column is not a column of the table.
     */
    method CheckDatabaseColumns(assignments: Assignments) returns (r: Outcome<Error>)
      ensures r.Pass? <==> ColumnsExist(db.columns, assignments)
      ensures r.Fail? ==> exists d :: d in assignments && !InArray(d, db.columns) && r.error == ColumnDoesNotExist(d)
    {
      var remaining := assignments.Keys;
      while remaining != {}
        invariant remaining <= assignments.Keys
        invariant forall d :: d in assignments && d !in remaining ==> InArray(d, db.columns)
        decreases |remaining|
      {
        var dbColumn :| dbColumn in remaining;
        if !InArray(dbColumn, db.columns) {
          return Fail(ColumnDoesNotExist(dbColumn));
        }
        remaining := remaining - {dbColumn};
      }
      return Pass;
    }

    /** `getDefaultEntity`: each `--default` item in order, a dynamic value replaced by its resolution. */
    method GetDefaultEntity() returns (entity: Entry)
      ensures entity == DefaultEntityOf(options.defaults, options.hooks)
    {
      var defaults := options.defaults;
      entity := map[];
      var i := 0;
      while i < |defaults|
        invariant i <= |defaults|
        invariant entity == Assoc(DefaultPairs(defaults, options.hooks)[..i])
      {
        var (field, value) := SplitFirst(':', defaults[i]);
        if options.hooks.isDynamicDefault(value) {
          value := options.hooks.resolveDynamicValue(value);
        }
        DefaultEntityStep(defaults, options.hooks, i);
        entity := entity[field := value];
        i := i + 1;
      }
      assert DefaultPairs(defaults, options.hooks)[..i] == DefaultPairs(defaults, options.hooks);
    }

    /** `prepareEntry`: the `--map` rules in order on the entry as it stands, then trimming unless `--no-trim`. */
    method PrepareEntry(entry: Entry) returns (r: Entry)
      ensures r == Prepared(entry, options.mappings, !options.noTrim)
    {
      var mappings := options.mappings;
      r := entry;
      var i := 0;
      while i < |mappings|
        invariant i <= |mappings|
        invariant Mapped(entry, mappings) == Mapped(r, mappings[i..])
      {
        var rule := ParseRule(mappings[i]);
        if LooseEquals(Lookup(r, rule.field), rule.source) {
          r := r[rule.field := rule.target];
        }
        assert mappings[i..][1..] == mappings[i + 1..];
        i := i + 1;
      }
      if !options.noTrim {
        r := Trimmed(r);
      }
    }

    /** `checkRequiredFields`: every unique field must be set and not empty; the first one that is not ends the check. */
    method CheckRequiredFields(entity: Entry) returns (ok: bool)
      ensures ok <==> RequiredFieldsSet(entity, options.uniqueFields)
    {
      var fields := options.uniqueFields;
      var i := 0;
      while i < |fields|
        invariant i <= |fields|
        invariant forall j :: 0 <= j < i ==> Filled(entity, fields[j])
      {
        if !(fields[i] in entity && entity[fields[i]] != Null) || IsEmpty(entity[fields[i]]) {
          return false;
        }
        i := i + 1;
      }
      return true;
    }

    /** `entityExists`: whether the table holds a row matching every field of `data`. */
    method EntityExists(data: Entry) returns (r: Result<bool, Error>)
      ensures Unknown(db.columns, data.Keys) != {} ==>
        r == Failure(DatabaseError(UnknownColumns(Unknown(db.columns, data.Keys))))
      ensures Unknown(db.columns, data.Keys) == {} ==> r == Success(Present(db.rows, data))
    {
      var count := db.Count(data);
      if count.Failure? {
        return Failure(DatabaseError(count.error));
      }
      return Success(count.value > 0);
    }

    /** The loop of `importRow` that copies each assigned row value over the defaults. */
    method AssignRowValues(defaults: Entry, row: RawRow, assignments: Assignments) returns (entry: Entry)
      ensures entry == Assigned(defaults, row, assignments)
    {
      entry := defaults;
      var pending := assignments.Keys;
      ghost var done: set<string> := {};
      while pending != {}
        invariant pending + done == assignments.Keys && pending !! done
        invariant entry.Keys == defaults.Keys + done
        invariant forall d :: d in done ==> entry[d] == RowValue(row, assignments[d])
        invariant forall f :: f in defaults && f !in done ==> entry[f] == defaults[f]
        decreases pending
      {
        var dbColumn :| dbColumn in pending;
        entry := entry[dbColumn := RowValue(row, assignments[dbColumn])];
        pending := pending - {dbColumn};
        done := done + {dbColumn};
      }
      AssignedByFields(defaults, row, assignments, entry);
    }

    /**
     * `importRow` once the entry is built: skip it when a unique field is
     * missing, otherwise raise a counter and update the matching rows or
     * insert it.
     */
    method StoreEntry(entry: Entry) returns (r: Result<RowOutcome, Error>)
      modifies this, db`rows
      ensures (r, State()) == Upsert(db.columns, options.uniqueFields, old(State()), entry)
      ensures db.committed == old(db.committed)
    {
      var uniqueData := UniqueData(entry, options.uniqueFields);

      var valid := CheckRequiredFields(entry);
      if !valid {
        return Success(Skipped);
      }

      var found := EntityExists(uniqueData);
      if found.Failure? {
        return Failure(found.error);
      }
      if found.value {
        assert CountMatches(db.rows, uniqueData) > 0;
        updateCount := updateCount + 1;
        var written := db.Update(entry, uniqueData);
        if written.Fail? {
          return Failure(DatabaseError(written.error));
        }
        return Success(Updated);
      }

      assert CountMatches(db.rows, uniqueData) == 0;
      createCount := createCount + 1;
      var written := db.Insert(entry);
      if written.Fail? {
        return Failure(DatabaseError(written.error));
      }
      return Success(Created);
    }

    /**
     * `importRow`: the defaults, overlaid by the row's assigned values, mapped
     * and trimmed, then stored by insert or update.
     */
    method ImportRow(row: RawRow, assignments: Assignments) returns (r: Result<RowOutcome, Error>)
      modifies this, db`rows
      ensures (r, State()) == Upsert(db.columns, options.uniqueFields, old(State()), BuildEntry(options, row, assignments))
      ensures db.committed == old(db.committed)
    {
      var entry := GetDefaultEntity();
      entry := AssignRowValues(entry, row, assignments);
      entry := PrepareEntry(entry);
      assert entry == BuildEntry(options, row, assignments);
      r := StoreEntry(entry);
    }

    /**
     * `importFile`: resolve and check the column assignments, then import
     * the rows of the first sheet, the first row being the header, stopping
     * at the first row that fails.
     */
    method ImportFile(file: DataFile) returns (r: Outcome<Error>)
      modifies this, db`rows
      ensures (r.Pass?, State()) == ImportFileSpec(options, db.columns, old(State()), file)
      ensures r.Fail? ==> FileError(options, db.columns, old(State()), file, r.error)
      ensures db.committed == old(db.committed)
    {
      if file.Unreadable? {
        return Fail(UnreadableFile);
      }
      var assignments := GetColumnAssignments(DataFileColumns(file.sheets));
      var checked := CheckDatabaseColumns(assignments);
      if checked.Fail? {
        return checked;
      }
      if file.sheets == [] {
        return Pass;
      }

      var sheet := file.sheets[0];
      ghost var entries := FileEntries(options, assignments, file.sheets);
      ghost var unique := options.uniqueFields;
      var header: seq<string> := [];
      var i := 0;
      while i < |sheet|
        invariant i <= |sheet|
        invariant db.committed == old(db.committed)
        invariant i == 0 ==> State() == old(State())
        invariant i > 0 ==> header == sheet[0]
        invariant i > 0 ==>
          RunRows(db.columns, unique, old(State()), entries) == RunRows(db.columns, unique, State(), entries[i - 1..])
      {
        if i == 0 {
          header := sheet[i];
        } else {
          assert entries[i - 1] == BuildEntry(options, ArrayCombine(header, sheet[i]), assignments);
          var imported := ImportRow(ArrayCombine(header, sheet[i]), assignments);
          assert entries[i - 1..][1..] == entries[i..];
          if imported.Failure? {
            return Fail(imported.error);
          }
        }
        i := i + 1;
      }
      return Pass;
    }

    /**
     * The body of `execute`'s loop: import one file, then commit when it went
     * through and roll back when it failed.
     */
    method ProcessFile(file: DataFile) returns (outcome: FileOutcome)
      requires db.rows == db.committed
      modifies this, db
      ensures (outcome, State()) == SettleFile(options, db.columns, old(State()), file)
      ensures db.rows == db.committed
    {
      var result := ImportFile(file);
      if result.Pass? {
        db.Commit();
        outcome := Imported;
      } else {
        db.RollBack();
        outcome := RolledBack;
      }
    }

    /**
     * `execute`: import each file in turn, committing the ones that succeed
     * and rolling back the ones that fail; the counters keep every row
     * counted, whether its file was committed or not.
     */
    method Execute(files: seq<DataFile>) returns (outcomes: seq<FileOutcome>)
      requires db.rows == db.committed
      modifies this, db
      ensures (outcomes, State()) == RunFiles(options, db.columns, old(State()), files)
      ensures db.rows == db.committed
      ensures old(createCount) <= createCount && old(updateCount) <= updateCount
    {
      ghost var start := State();
      outcomes := [];
      assert files[0..] == files;
      var i := 0;
      while i < |files|
        invariant i <= |files|
        invariant db.rows == db.committed
        invariant RunFiles(options, db.columns, start, files).0 == outcomes + RunFiles(options, db.columns, State(), files[i..]).0
        invariant RunFiles(options, db.columns, start, files).1 == RunFiles(options, db.columns, State(), files[i..]).1
      {
        ghost var before := State();
        RunFilesStep(options, db.columns, before, files[i..]);
        assert files[i..][0] == files[i] && files[i..][1..] == files[i + 1..];
        var outcome := ProcessFile(files[i]);
        outcomes := outcomes + [outcome];
        i := i + 1;
      }
      assert files[i..] == [];
      assert RunFiles(options, db.columns, State(), []) == ([], State());
      assert outcomes + [] == outcomes;
      RunFilesAccounting(options, db.columns, start, files);
    }
  }
}
