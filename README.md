# TYPO3 data importer: the row-import pipeline, modelled in Dafny

This project models the core of the `import` console command. The command
reads spreadsheet files and writes their rows into one database table of a
TYPO3 installation. For each file it does the following:

- it resolves which spreadsheet column feeds which database column (`--column db:source`, plus identity for the rest of the header);
- it checks those database columns against the table schema;
- for every data row of the first sheet, it builds an entry in stages:
  - the `--default` values;
  - the assigned row values;
  - the `--map field:source:target` rewrites;
  - trimming, unless `--no-trim`;
- it skips a row whose `--unique-field` values are unset or empty;
- otherwise it updates the rows matching the unique data, or inserts the entry, raising the update or the create counter;
- it commits the file's transaction when the file went through, and rolls it back when it did not. The counters are not rolled back.

It also models `Helper::loadConnectionParams`. That function overlays the
database variables of a TYPO3 configuration file (`typo_db`,
`typo_db_username`, `typo_db_password`, `typo_db_host`) on a table of default
connection parameters.

Files:

- `wrappers.dfy`: `Option`, `Result` and `Outcome`. An exception becomes a `Failure`/`Fail` value.
- `php.dfy`: the PHP 7 built-ins the core relies on, stated on values.
  - Ordered-array assignment, where a later key wins.
  - `explode`, with and without a limit.
  - `trim`.
  - `array_combine`.
  - Loose `==` and `in_array`.
- `database.dfy`: the one target table as a `Connection` class. It holds the column list, the rows the open transaction sees and the rows as of the last commit. Its methods are the lookup query, `insert`, `update`, `commit` and `rollBack`.
- `import_spec.dfy`: what the command computes, as functions. These are the column assignments, the entry built from a row, the insert-or-update step (`Upsert`), a file (`ImportFileSpec`) and a run of files (`RunFiles`). Lemmas state the properties.
- `import_command.dfy`: the command as a class `Importer`. It has the options, the connection and the two counters. Its methods follow the PHP methods loop by loop, and each is proved to compute what the functions of `import_spec.dfy` say.
  - Most have the PHP method's own name.
  - `AssignRowValues` and `StoreEntry` are the two halves of `importRow`: the loop that copies row values over the defaults, and the insert-or-update step.
  - `ProcessFile` is the body of `execute`'s loop over files: import, then commit or roll back.
- `helper.dfy`: the connection-parameter overlay. The `foreach` over parsed statements is a method proved against the declarative `Loaded`: every default parameter is set to the last value assigned to its TYPO3 variable, or else keeps its default.

PHP semantics are those of PHP 7:
- `array_combine` returns `false` on a length mismatch.
- `==` between two numeric strings compares them as numbers, and `null == ""`.
- `empty()` holds for null, `""` and `"0"`.
- `trim` strips space, `\t`, `\n`, `\r`, `\0` and `\x0B`.

An absent array key reads as `null`. A PHP array keyed by strings is a Dafny `map`.

Behaviour of the code that is easy to misread:
- Value mappings compare with loose `==`, so `--map Age:30:thirty` also rewrites `"030"` and `"30.0"`.
- A mapping applies to the entry as the earlier mappings left it, so mappings chain.
- With no unique fields, every row matches the empty lookup, and the update is called with empty criteria. If the database layer runs that as an unconditional `UPDATE`, a valid row overwrites every row of a non-empty table. The model assumes it does.
- The counters go up before the database write, so a row whose write fails is still counted, and a rollback does not undo it.

## Model

| member | source | states |
|---|---|---|
| Php.Assoc | src/Console/Command/ImportCommand.php:464-467 | an array built by `$a[$k] = $v` for each pair in order, starting from an empty array |
| Php.AssocSnoc | src/Console/Command/ImportCommand.php:464-467 | assigning one more key to an ordered array overwrites that key and nothing else |
| Php.AssocLastWins | src/Console/Command/ImportCommand.php:464-467 | a key is present iff some pair names it, and then it holds the value of the last pair naming it |
| Php.AssocLastPair | src/Console/Command/ImportCommand.php:464-467 | a pair not followed by another pair with the same key decides that key's value |
| Php.Explode | src/Console/Command/ImportCommand.php:429 | `explode` yields at least one part, no part contains the separator, and gluing the parts back gives the input |
| Php.ExplodeImplode | src/Console/Command/ImportCommand.php:429 | splitting a glued list of separator-free parts gives the parts back (round trip in the other direction) |
| Php.SplitFirst | src/Console/Command/ImportCommand.php:465 | `explode(':', s, 2)` splits at the first colon: the name has no colon, the rest is null iff there is no colon, and name, colon and rest rebuild the input |
| Php.SplitFirstExplode | src/Console/Command/ImportCommand.php:261 | `explode` with limit 2 agrees with the unlimited split: the same first part, no rest iff there is one part, otherwise the rest is the other parts glued back |
| Php.TrimLeftSuffix | src/Console/Command/ImportCommand.php:439 | `ltrim` drops a prefix of strippable characters and stops at a non-strippable one |
| Php.TrimRightPrefix | src/Console/Command/ImportCommand.php:439 | `rtrim` drops a suffix of strippable characters and stops at a non-strippable one |
| Php.Trim | src/Console/Command/ImportCommand.php:439 | `trim` with PHP's default character list: `rtrim` after `ltrim` (its properties are stated by the lemmas below) |
| Php.TrimShape | src/Console/Command/ImportCommand.php:439 | `trim` returns a slice of its input with only strippable characters outside it and non-strippable characters at both of its ends |
| Php.TrimIdempotent | src/Console/Command/ImportCommand.php:439 | trimming a trimmed string changes nothing |
| Php.TrimLeftPadded | src/Console/Command/ImportCommand.php:439 | `ltrim` removes exactly a leading run of strippable padding |
| Php.TrimRightPadded | src/Console/Command/ImportCommand.php:439 | `rtrim` removes exactly a trailing run of strippable padding |
| Php.TrimPadded | src/Console/Command/ImportCommand.php:439 | `trim` removes exactly the strippable padding around a string that has non-strippable ends |
| Php.ArrayCombine | src/Console/Command/ImportCommand.php:303 | `array_combine` fails iff header and row differ in length; otherwise its keys are exactly the header names |
| Php.ArrayCombineLaterWins | src/Console/Command/ImportCommand.php:303 | with duplicate header names, the last column of that name supplies the value |
| Php.NumericValue | src/Console/Command/ImportCommand.php:432 | the number a PHP numeric string denotes (leading whitespace, sign, digits, optional fraction and exponent), or none when the string is not numeric |
| Php.LooseEquals | src/Console/Command/ImportCommand.php:432 | PHP 7 `==` on strings and null: two numeric strings compare as numbers, other strings compare exactly, and null equals only null and `""` |
| Php.LooseEqualsReflexive | src/Console/Command/ImportCommand.php:432 | every value loosely equals itself, so a mapping whose source is the stored value always fires |
| Php.LooseEqualsSymmetric | src/Console/Command/ImportCommand.php:432 | loose `==` does not depend on operand order |
| Php.SameNumberSymmetric | src/Console/Command/ImportCommand.php:432 | two numeric strings denoting the same number is a symmetric relation |
| Php.NumericLooseEquals | src/Console/Command/ImportCommand.php:432 | two numeric strings that denote the same number are loosely equal, whatever their spelling |
| Php.IsEmpty | src/Console/Command/ImportCommand.php:391 | `empty()` on a string or null: true exactly for null, `""` and `"0"` |
| Php.InArray | src/Console/Command/ImportCommand.php:515 | `in_array` with loose comparison: some element of the list is loosely equal to the name |
| Database.Matches | src/Console/Command/ImportCommand.php:411-414 | a row satisfies the `andWhere` conjunction when every lookup field is a non-null value equal to the row's |
| Database.Present | src/Console/Command/ImportCommand.php:417 | `rowCount() > 0`: some row satisfies the lookup |
| Database.CountMatches | src/Console/Command/ImportCommand.php:407-418 | the number of rows a lookup returns is positive iff some row matches every condition |
| Database.UpdatedRows | src/Console/Command/ImportCommand.php:372 | `update` with criteria: every row matching the criteria takes the entry's values, other rows stay |
| Database.Connection.Count | src/Console/Command/ImportCommand.php:407-418 | the lookup fails on unknown columns and otherwise counts the matching rows |
| Database.Connection.Insert | src/Console/Command/ImportCommand.php:376 | an insert appends the entry as a new row, or fails on unknown columns and writes nothing |
| Database.Connection.Update | src/Console/Command/ImportCommand.php:372 | an update overwrites every matching row with the entry's values, or fails on unknown columns and writes nothing |
| Database.Connection.Commit | src/Console/Command/ImportCommand.php:122 | after commit the durable rows are the transaction's rows |
| Database.Connection.RollBack | src/Console/Command/ImportCommand.php:129 | after rollback the transaction's rows are the durable rows again |
| ImportSpec.ArrayDiff | src/Console/Command/ImportCommand.php:470 | `array_diff` keeps exactly the header columns that are not used as a source |
| ImportSpec.ExplicitAssignments | src/Console/Command/ImportCommand.php:462-468 | the first pass: `$columns[$dbName] = $fileName` for each `--column` item split at its first colon, later items overwriting earlier ones |
| ImportSpec.ColumnAssignmentsOf | src/Console/Command/ImportCommand.php:456-476 | `getColumnAssignments`: the explicit assignments, then an identity assignment for every header column that no explicit assignment uses as a source |
| ImportSpec.ExplicitAssignmentsStep | src/Console/Command/ImportCommand.php:464-467 | each `--column` item, in order, sets its database column to the text after its first colon |
| ImportSpec.ExplicitLastWins | src/Console/Command/ImportCommand.php:464-467 | a database column is explicitly assigned iff some `--column` item names it before its first colon; the last such item decides its source |
| ImportSpec.IdentityOfSnoc | src/Console/Command/ImportCommand.php:471-473 | adding one unmapped column adds its identity assignment and changes nothing else |
| ImportSpec.ColumnAssignmentsByDiff | src/Console/Command/ImportCommand.php:456-476 | the assignments are the explicit ones, overridden by an identity entry for every header column `array_diff` leaves |
| ImportSpec.ColumnAssignmentsShape | src/Console/Command/ImportCommand.php:456-476 | the assigned columns are the explicit names plus the unused header columns; an unused header column maps to itself (the identity pass overrides); any other column takes its last explicit source |
| ImportSpec.ColumnFanOut | src/Console/Command/ImportCommand.php:464-467 | two database columns may take their values from the same spreadsheet column |
| ImportSpec.ColumnsExist | src/Console/Command/ImportCommand.php:511-521 | the schema check passes iff every assigned database column is loosely `in_array` of the table's columns |
| ImportSpec.ResolveDefault | src/Console/Command/ImportCommand.php:264-266 | a `--default` value is replaced by its resolution when `isDynamicDefault` says it is dynamic, and kept otherwise |
| ImportSpec.DefaultEntityOf | src/Console/Command/ImportCommand.php:256-272 | `getDefaultEntity`: each `--default` item split at its first colon, its value resolved, assigned in order so that later items win |
| ImportSpec.DefaultEntityLastWins | src/Console/Command/ImportCommand.php:256-272 | for a `--default` field not repeated later, the entity holds that item's value, resolved when it is dynamic |
| ImportSpec.DefaultEntityFields | src/Console/Command/ImportCommand.php:256-272 | the default entity's fields are exactly the names before the first colon of the `--default` items |
| ImportSpec.DefaultEntityStep | src/Console/Command/ImportCommand.php:260-268 | each `--default` item, in order, sets its field to its value, resolved when dynamic |
| ImportSpec.RowValue | src/Console/Command/ImportCommand.php:352 | `$row[$importColumn]`: null when the row is `false` or lacks the column, the cell text otherwise |
| ImportSpec.Assigned | src/Console/Command/ImportCommand.php:349-353 | the default entity with every assigned database column overwritten by its row value |
| ImportSpec.AssignedByFields | src/Console/Command/ImportCommand.php:351-353 | an entry that agrees field by field with the defaults overlaid by the row values is that overlay |
| ImportSpec.AssignmentOverridesDefault | src/Console/Command/ImportCommand.php:349-353 | the row value overrides the default for every assigned column, other defaults stay, and the fields are the union |
| ImportSpec.ParseRule | src/Console/Command/ImportCommand.php:429 | `list($field, $source, $target) = explode(':', $mapping)`: the first three parts, a missing one read as null |
| ImportSpec.ApplyRule | src/Console/Command/ImportCommand.php:432-434 | one rule: the field is set to the target when its current value loosely equals the source |
| ImportSpec.Mapped | src/Console/Command/ImportCommand.php:428-435 | the rules applied in order, each to the entry the earlier ones left |
| ImportSpec.MappedLeavesOtherFields | src/Console/Command/ImportCommand.php:428-435 | a field no mapping names is neither added nor changed |
| ImportSpec.MappedValueOrigin | src/Console/Command/ImportCommand.php:428-435 | after mapping, a field holds its original value or the target of some mapping on that field |
| ImportSpec.MappedAppend | src/Console/Command/ImportCommand.php:428-435 | mapping by two lists of rules in turn is mapping by their concatenation |
| ImportSpec.MappedSplit | src/Console/Command/ImportCommand.php:428-435 | mapping by a list of rules is mapping by its first `k` rules, then by the rest |
| ImportSpec.FiresAfterPrefix | src/Console/Command/ImportCommand.php:428-435 | whether a rule fires does not depend on whether the rules before it are applied as one list or as a prefix followed by the rest |
| ImportSpec.FiredRuleSets | src/Console/Command/ImportCommand.php:432-434 | right after a rule fires, its field holds the rule's target |
| ImportSpec.UnfiredAfterPrefix | src/Console/Command/ImportCommand.php:428-435 | rules on a field that do not fire in the whole list do not fire in the list left after a prefix either |
| ImportSpec.MappedUnfired | src/Console/Command/ImportCommand.php:428-435 | a field on which no rule fires, in the entry as that rule sees it, keeps its value, even where rules name it |
| ImportSpec.MappedLastFired | src/Console/Command/ImportCommand.php:428-435 | a field ends with the target of the last rule on it that fires |
| ImportSpec.MappedKeys | src/Console/Command/ImportCommand.php:428-435 | mapping keeps every field, and adds only fields some mapping names |
| ImportSpec.MappingsChain | src/Console/Command/ImportCommand.php:428-435 | mappings chain: when a first rule's target loosely equals a second rule's source on the same field, both fire in turn |
| ImportSpec.Trimmed | src/Console/Command/ImportCommand.php:438-440 | `array_map('trim', $entry)`: every value of the entry trimmed, null read as `""`; its properties are stated by the lemmas below |
| ImportSpec.TrimmedShape | src/Console/Command/ImportCommand.php:438-440 | trimming keeps the field set, replaces every value with its trimmed string, and leaves no value starting or ending with a strippable character |
| ImportSpec.TrimmedIdempotent | src/Console/Command/ImportCommand.php:438-440 | trimming an entry twice is trimming it once |
| ImportSpec.TrimmedUpdate | src/Console/Command/ImportCommand.php:439 | trimming commutes with setting one field |
| ImportSpec.Prepared | src/Console/Command/ImportCommand.php:426-443 | `prepareEntry`: the mappings in order, then trimming when it is enabled; its properties are stated by `PreparedShape` |
| ImportSpec.PreparedShape | src/Console/Command/ImportCommand.php:426-443 | preparation keeps the mapped entry's fields; with `--no-trim` it is the mapped entry; otherwise every value is the trimmed mapped value (trim runs after mapping) |
| ImportSpec.BuildEntry | src/Console/Command/ImportCommand.php:349-356 | the entry `importRow` builds: the default entity, overwritten by the assigned row values, then prepared |
| ImportSpec.Filled | src/Console/Command/ImportCommand.php:391 | `isset($entity[$field]) && !empty($entity[$field])`: the field is present and its value is not PHP-empty |
| ImportSpec.RequiredFieldsSet | src/Console/Command/ImportCommand.php:386-398 | `checkRequiredFields`: every unique field is filled |
| ImportSpec.UniqueData | src/Console/Command/ImportCommand.php:360 | `array_intersect_key($entry, array_flip($uniqueFields))`: the entry restricted to the unique fields it has |
| ImportSpec.UniqueDataOfValidEntry | src/Console/Command/ImportCommand.php:359-365 | for a valid entry the lookup data has exactly the unique fields, all set and non-empty, and the entry itself matches it |
| ImportSpec.Upsert | src/Console/Command/ImportCommand.php:359-376 | `importRow` from the prepared entry on: skip an invalid row, otherwise look up the unique data, then raise a counter and update or insert |
| ImportSpec.UpsertCounts | src/Console/Command/ImportCommand.php:362-376 | an invalid row changes nothing; a lookup naming an unknown column fails and changes nothing; otherwise exactly one counter goes up, the update counter iff some row matched; a successful insert adds one row, a failed write none |
| ImportSpec.EmptyUniqueFieldsUpdateEveryRow | src/Console/Command/ImportCommand.php:360-373 | with no unique fields the lookup matches every row, so a non-empty table has every row overwritten, provided the update with empty criteria is unconditional |
| ImportSpec.RunRows | src/Console/Command/ImportCommand.php:296-304 | the data rows imported in order; the first failing row ends the file with its error |
| ImportSpec.DataFileColumns | src/Console/Command/ImportCommand.php:484-501 | `getDataFileColumns`: the first row of the first sheet, or no columns when there is none |
| ImportSpec.FileEntries | src/Console/Command/ImportCommand.php:288-304 | the entries of a file: each row of the first sheet after the header, combined with the header and built into an entry |
| ImportSpec.ImportFileSpec | src/Console/Command/ImportCommand.php:279-306 | `importFile`: an unreadable file or a failed schema check fails before any row; otherwise the rows of the first sheet after the header |
| ImportSpec.FileError | src/Console/Command/ImportCommand.php:279-306 | the error that ends a file: the reader's, a missing assigned column, or the first failing row's |
| ImportSpec.FileErrorExactlyOnFailure | src/Console/Command/ImportCommand.php:120-131 | a file fails exactly when some error ends it, the error `execute` reports before rolling back |
| ImportSpec.SettleFile | src/Console/Command/ImportCommand.php:120-131 | one file of `execute`: committed when it imports, rolled back to the rows it started from when it fails, its counter increments kept either way |
| ImportSpec.RunFiles | src/Console/Command/ImportCommand.php:117-132 | `execute`'s loop: each file settled in turn from the state the previous one left |
| ImportSpec.RunRowsAccounting | src/Console/Command/ImportCommand.php:296-304 | over a run of rows, counters only grow, by at most one per row, and the rows grow by the number of inserts |
| ImportSpec.SchemaErrorWritesNothing | src/Console/Command/ImportCommand.php:285-288 | a file whose assignments name a column the table lacks fails before any row: nothing is written and no counter moves |
| ImportSpec.SettleFileAccounting | src/Console/Command/ImportCommand.php:120-131 | a file never lowers a counter; a rolled-back file leaves the rows it started from; a committed one grows them by its insertions |
| ImportSpec.RunFilesStep | src/Console/Command/ImportCommand.php:117-132 | a run is its first file, then the remaining files from the state that file leaves |
| ImportSpec.RunFilesAccounting | src/Console/Command/ImportCommand.php:117-132 | one outcome per file; counters only grow; a run in which every file rolls back leaves the rows as they were |
| ImportSpec.UpsertKeepsMatches | src/Console/Command/ImportCommand.php:370-376 | an insert or update never makes a lookup over unique fields stop finding a row |
| ImportSpec.UpsertEstablishes | src/Console/Command/ImportCommand.php:370-376 | a valid entry imported without error can afterwards be found by its unique data |
| ImportSpec.RunRowsKeepsMatches | src/Console/Command/ImportCommand.php:296-304 | lookups over unique fields that succeed before a run of rows still succeed after it |
| ImportSpec.RunRowsEstablishes | src/Console/Command/ImportCommand.php:296-304 | after a run of rows without error, every valid entry of the run can be found by its unique data |
| ImportSpec.RerunOnlyUpdates | src/Console/Command/ImportCommand.php:370-376 | when every valid entry already has a matching row, the run creates nothing and the table keeps its size |
| ImportSpec.ReimportCreatesNothing | src/Console/Command/ImportCommand.php:279-306 | importing a file again right after it was imported without error creates no row |
| ImportSpec.ExampleAssignments | src/Console/Command/ImportCommand.php:456-476 | with no `--column` items, header `Name, Age` maps each column to itself |
| ImportSpec.ExampleColumnsExist | src/Console/Command/ImportCommand.php:511-521 | those assignments pass the schema check for a table with columns `Name, Age` |
| ImportSpec.ExampleRow | src/Console/Command/ImportCommand.php:303 | header and row combine into a name-to-cell map |
| ImportSpec.ExampleRule | src/Console/Command/ImportCommand.php:429 | `Age:30:thirty` parses into field, source and target |
| ImportSpec.ExampleApplyRule | src/Console/Command/ImportCommand.php:432-434 | the rule rewrites age "30" to "thirty" |
| ImportSpec.ExampleNumeric30 | src/Console/Command/ImportCommand.php:432 | `"30"` is numeric and denotes thirty |
| ImportSpec.ExampleNumeric030 | src/Console/Command/ImportCommand.php:432 | `"030"` is numeric and denotes thirty too |
| ImportSpec.ExampleNumeric30Point0 | src/Console/Command/ImportCommand.php:432 | `"30.0"` is numeric and denotes thirty, as 300 tenths |
| ImportSpec.ExampleLooseThirty | src/Console/Command/ImportCommand.php:432 | loose `==` takes `"030"` and `"30.0"` for `"30"` |
| ImportSpec.ExampleLooseRewrites | src/Console/Command/ImportCommand.php:432-434 | the rule `Age:30:thirty` also rewrites an age of `"030"` or `"30.0"` to `"thirty"` |
| ImportSpec.ExampleMapping | src/Console/Command/ImportCommand.php:428-435 | the mapping pass rewrites the age and leaves the untrimmed name |
| ImportSpec.ExampleTrimName | src/Console/Command/ImportCommand.php:439 | `"  Alice  "` trims to `"Alice"` |
| ImportSpec.ExampleTrimAge | src/Console/Command/ImportCommand.php:439 | `"thirty"` is unchanged by trimming |
| ImportSpec.ExampleTrim | src/Console/Command/ImportCommand.php:438-440 | the trimming pass cleans the name and keeps the mapped age |
| ImportSpec.ExampleAssigned | src/Console/Command/ImportCommand.php:349-353 | with no defaults, the entry is the row's values under their database columns |
| ImportSpec.ExampleBuildEntry | src/Console/Command/ImportCommand.php:349-356 | the example row becomes `{Name: "Alice", Age: "thirty"}` |
| ImportSpec.ExampleEntries | src/Console/Command/ImportCommand.php:296-304 | the example sheet yields exactly that one entry; the header row yields none |
| ImportSpec.ExampleInsert | src/Console/Command/ImportCommand.php:375-376 | into an empty table, the entry is inserted and the create counter becomes 1 |
| ImportSpec.ExampleUpdate | src/Console/Command/ImportCommand.php:370-373 | with the row present, the same entry updates it in place and the update counter becomes 1 |
| ImportSpec.ExampleFirstImport | src/Console/Command/ImportCommand.php:279-306 | the first import of the example file inserts its one entry |
| ImportSpec.ExampleSecondImport | src/Console/Command/ImportCommand.php:279-306 | a second import of the same file updates that row instead of adding one |
| ImportSpec.ReimportExample | src/Console/Command/ImportCommand.php:106-137 | running the same file twice gives two committed files, one row, one creation and one update |
| ImportCommand.Importer.GetColumnAssignments | src/Console/Command/ImportCommand.php:456-476 | the loops compute the column assignments: explicit items in order, then identity for the unused header columns |
| ImportCommand.Importer.CheckDatabaseColumns | src/Console/Command/ImportCommand.php:511-521 | passes iff every assigned database column is a table column; a failure names a missing one |
| ImportCommand.Importer.GetDefaultEntity | src/Console/Command/ImportCommand.php:256-272 | the loop builds the default entity: each item split at its first colon, dynamic values resolved, later items win |
| ImportCommand.Importer.PrepareEntry | src/Console/Command/ImportCommand.php:426-443 | the loop applies the mappings in order to the entry as it stands, then trims unless `--no-trim` |
| ImportCommand.Importer.CheckRequiredFields | src/Console/Command/ImportCommand.php:386-398 | true iff every unique field is set, not null and not PHP-empty |
| ImportCommand.Importer.EntityExists | src/Console/Command/ImportCommand.php:407-418 | fails on unknown lookup columns; otherwise true iff some row matches all the unique data |
| ImportCommand.Importer.AssignRowValues | src/Console/Command/ImportCommand.php:351-353 | the loop overlays each assigned column's row value on the defaults |
| ImportCommand.Importer.StoreEntry | src/Console/Command/ImportCommand.php:359-376 | the outcome, counters and rows are those of the insert-or-update step on the entry; nothing is committed |
| ImportCommand.Importer.ImportRow | src/Console/Command/ImportCommand.php:347-377 | the entry is built from defaults, row values, mappings and trimming; the counters, rows and outcome are then those of the insert-or-update step on it; nothing is committed |
| ImportCommand.Importer.ImportFile | src/Console/Command/ImportCommand.php:279-306 | the outcome, counters and rows are those of importing the file: schema check first, first sheet only, header row skipped, stop at the first failing row; a failure carries the error that ended the file |
| ImportCommand.Importer.ProcessFile | src/Console/Command/ImportCommand.php:120-131 | a file that imports is committed; one that fails is rolled back to the committed rows, its counter increments kept |
| ImportCommand.Importer.Execute | src/Console/Command/ImportCommand.php:106-137 | each file is committed when it succeeds and rolled back when it fails; the outcomes and counters are those of the run, and the counters never decrease |
| Helper.ArraySearch | src/Helper.php:53-54 | `in_array` holds iff `array_search` finds a key, and that key belongs to the first entry holding the name |
| Helper.ParameterOfUnfolded | src/Helper.php:28-33 | the name lookup, spelled out: each of the four variables yields its parameter, any other name none |
| Helper.Loaded | src/Helper.php:18-33 | the loaded parameters have exactly the defaults' keys; a parameter with no TYPO3 variable keeps its default |
| Helper.ParameterOfInverse | src/Helper.php:28-33 | the name table is one-to-one: a variable sets parameter `k` iff `k` is set by that variable |
| Helper.RecognisedVariables | src/Helper.php:28-33 | exactly `typo_db`, `typo_db_username`, `typo_db_password` and `typo_db_host` are recognised, setting `dbname`, `user`, `password` and `host` |
| Helper.LoadedNothing | src/Helper.php:43 | with no statements the result is a copy of the defaults |
| Helper.SettingSnoc | src/Helper.php:46-57 | a further statement changes a parameter only when it assigns that parameter's variable |
| Helper.LoadedSnocSkipped | src/Helper.php:49-53 | a statement without a plain variable, or assigning any other variable, leaves the parameters unchanged |
| Helper.LoadedSnocAssigned | src/Helper.php:53-56 | a statement assigning a recognised variable sets that variable's parameter to the statement's value and nothing else |
| Helper.SkippedStatementIrrelevant | src/Helper.php:46-57 | a skipped statement can be removed from anywhere in the file without changing the result |
| Helper.LaterAssignmentWins | src/Helper.php:46-57 | a recognised variable's parameter ends with the value of its last assignment |
| Helper.FixedParameters | src/Helper.php:18-33 | `driver`, `charset` and `driverOptions` always keep their defaults |
| Helper.LoadConnectionParams | src/Helper.php:35-60 | the loop over the statements yields the declarative overlay: each parameter at the last value assigned to its variable, else its default |

## Left out

- Spreadsheet reading is input. A file is given as its sheets of cell texts, or as unreadable.
  - Opening the file is not modelled.
  - The first sheet and its first row are taken as the data and the header (`getDataFileColumns`, `getReaderForFile`).
  - Cells are text; typed cells (numbers, dates) are not modelled.
  - Spout's skipping of empty rows is not modelled.
- The file system is not modelled: `getFilesToImport`, `handleSuccess`, `handleFailedFile` and `ensureDirectoryExists`. These are globbing, moving files and making directories. `Execute` takes the list of files.
- Console output and the verbosity-dependent row logging are not modelled. This covers `logRowImport`, `logInvalidRequiredFiled` and the summary lines; none of them affects state.
- Parsing the PHP configuration file is not modelled. `Helper::loadConnectionParams` receives the parser's statements, each given as:
  - the name of the plain variable it assigns, if any;
  - the value of its right-hand side.

  A variable variable (`$$x`) counts as not plain.
- Doctrine DBAL plumbing is not modelled: connection setup, `setAutoCommit`, the query builder and the schema manager. The table is a `Connection` holding a column list and rows.
  - The only database failure modelled is a statement naming columns the table does not have.
  - Constraint violations, connection loss and type errors are not modelled.
  - Collation-dependent comparison in the lookup is not modelled: values match only when equal as strings.
  - A lookup or an update with no conditions (no `--unique-field`) matches every row.
- Database.Connection.Update: models SQL `UPDATE` as overlaying the entry on each matching row. The SQL text that the DBAL generates is not modelled.
- ImportSpec.EmptyUniqueFieldsUpdateEveryRow: assumes that the database layer runs an `update` with empty criteria as an unconditional `UPDATE` of every row. The SQL it actually builds for empty criteria is not part of this model. If it builds a statement that fails instead, the source raises an exception and rolls the file back, which this lemma does not capture.
- `Helper::isDynamicDefault` and `Helper::resolveDynamicValue` are called by `getDefaultEntity`, but their definitions are not part of this model. They are uninterpreted functions fixed for the whole run, so a dynamic default resolves to the same value on every row of every file. The source resolves it again on every row, and the value may depend on the clock.
- ImportSpec.ReimportCreatesNothing: holds only because a dynamic default resolves to the same value at every call. In the source, a unique field fed by a dynamic default whose resolution changes between the two imports (a timestamp, say) takes a new value on the second import, finds no match and is inserted again.
- ImportCommand.Importer.CheckDatabaseColumns: reports some missing column, not necessarily the first one in PHP's array order. Assignments are a `map`, which has no order.
- PHP arrays with integer-like string keys (PHP turns `"1"` into `1`) are not modelled. Keys are strings throughout.
- Php.LooseEquals: compares numeric strings as exact decimals, not as IEEE doubles. It can therefore differ from PHP on numbers beyond double precision. Like PHP 7, it does not take hexadecimal or `INF`/`NAN` spellings as numeric.
- Helper.LoadConnectionParams: `in_array` is loose, but none of the four recognised names is numeric, so loose and strict comparison agree; the model compares names exactly. Right-hand sides are modelled as null, strings, integers and integer-keyed arrays of strings; a float literal or any other kind of PHP value is not modelled.
- ImportCommand.Importer.Execute: assumes that `handleSuccess` and `handleFailedFile` do not throw; both are file-system operations and are not modelled. In the source, `handleSuccess` runs inside the `try` after `commit()`. If it throws (for instance when `ensureDirectoryExists` cannot create the target directory), the committed file goes through `rollBack()`, which changes no data, and then through `handleFailedFile`. If `handleFailedFile` throws inside the `catch`, the exception leaves `execute`: the remaining files are not imported and no summary is printed. The model gives every file exactly one outcome and runs every file.
- ImportCommand.Importer.Execute: requires that no writes are pending when it starts. The command switches auto-commit off just before this loop, so nothing is pending.
- Behaviour under PHP 8, where `array_combine` throws instead of returning `false`, is not modelled. The model follows PHP 7.
