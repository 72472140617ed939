# A verified model of django-mssql

django-mssql is a SQL Server backend for Django. Five parts of it are small programs whose
correctness is not evident from their text. This project models them in Dafny against an abstract
SQL Server, an abstract ADO and a small semantics of the T-SQL they emit, and proves what they do.

* **The schema editor** (`SqlServer`, `Fields`, `AlterFieldSpec`, `AlterFieldSteps`, `AlterFieldProof`,
  `AlterFieldLegality`, `AlterFieldTheorems`, `AddRemoveSpec`, `AddFieldTheorems`, `SchemaEditing`, `Literals`). `SqlServer` is a catalog
  with rows and a legality rule for each statement: a type-only ALTER COLUMN makes a column nullable,
  NOT NULL needs rows without NULL, a column can be dropped or retyped only when no constraint stands in
  the way. `SchemaEditor.AlterField` is the script of `_alter_field`, statement by statement, on a mutable
  database. `AlteredDatabase` says in closed form, without any intermediate catalog, what should come out. The
  method is proved to reach exactly that database if and only if there is no obstacle (`FirstObstacle`, ten conditions
  on the catalog and the request, in the order in which the script meets them), and to fail otherwise. `AlterFieldTheorems`
  proves what the closed form is worth: it agrees with the new field and keeps everything else.
* **The driver** (`Connections`, `CursorFetch`, `ParameterStyle`, `Decimals`, `ComDate`): the transaction automaton
  over ADO, the fetch automaton over column-major recordsets, the way from `%s` to `?`, decimals
  as text, COM dates.
* **SQL builders** (`Like`, `PatternLookups`, `DateTrunc` with `Calendar`, `TimeZones`, `Durations`, `Savepoints`): LIKE escaping against a LIKE
  matcher, truncation with DATEADD and DATEDIFF, zone offsets, durations, savepoints that are never released.
* **Query rewriting** (`Slicing`, `OutputSplice`, `InsertCompiler`, `InsertReader`, `InsertSession`): slices as OFFSET and FETCH, INSERT
  with explicit identities and returned keys.

`Wrappers` holds Option, Result and Outcome, `Strings` Python's `str.replace`, words in any case and quoted names.

## Assumptions about the surroundings

* Django's base schema editor: `_constraint_names` filters `get_constraints` by the exact list of
  columns and by flags; `_alter_column_type_sql` renders a type-only ALTER COLUMN; `sql_update_with_default` touches NULL
  rows only; `field.unique` includes `primary_key`; `effective_default` is a property of the field;
  `skip_default` is False and foreign keys are supported; alterations are not combined into one statement; deferred statements run
  in order on leaving the editor; a nullable primary key does not exist; an effective default is not NULL.
* Constraints are known by object numbers; names that the editor generates are assumed not to be in use.
* A type conversion is total and keeps different values apart: `Cast(type, cell)` is a free constructor.
* `Database.strict` selects between servers that refuse to retype a column with any key, index or
  check on it and servers that only mind defaults and foreign keys. The results cover both, but a strict
  server never accepts a type change of the primary key (`AlterFieldTheorems.StrictServerRefusesKeyRetype`). The server's rule
  that key columns stay NOT NULL is checked when a key is added, not when one of its columns is retyped.
* `Prepared`, the premise of the result about `_alter_field`: the catalog is well formed and agrees with the old field, the
  fields are ones that Django accepts, and the columns to be retyped are distinct and none is the altered one. `Alterable`
  adds that there is no obstacle and that the relations are as many before as after.
* ALTER COLUMN does not take the word IDENTITY. An AutoField is a primary key.
* T-SQL's LIKE: a set ends at the first `]` after its `[`, and a set that never ends matches nothing.
* `@@TRANCOUNT` is ADO's depth: the transactions are those of the driver.

## Model

| member | source | states |
|---|---|---|
| `SqlServer.ExecKeepsValid` | sqlserver_ado/schema.py:152-416 | Every statement the editor sends, if the server accepts it, keeps the catalog well formed: cells match rows, NOT NULL columns hold no NULL, constraints name existing columns, foreign keys refer to keys of the same type, one primary key a table |
| `Fields.RelatedPairs` | sqlserver_ado/schema.py:16-22 | Old and new relations that are not many-to-many are paired by position, as many as the shorter side has |
| `Fields.NonManyToManyKeeps` | sqlserver_ado/schema.py:18-21 | A relation that is not many-to-many is kept as often as it is there, any other is not |
| `Fields.NonManyToManyConcat` | sqlserver_ado/schema.py:18-21 | And the relations keep their order |
| `SchemaEditing.SchemaEditor.DeleteConstraints` | sqlserver_ado/schema.py:171-172 | Dropping names one by one, in any order, removes exactly those constraints, and gets through whenever each can be dropped by the statement used |
| `SchemaEditing.SchemaEditor.DropForeignKeys` | sqlserver_ado/schema.py:160-172 | Removes exactly the column's own foreign keys and remembers whether there were any; fails exactly on a wrong number in strict mode |
| `SchemaEditing.SchemaEditor.DropUniques` | sqlserver_ado/schema.py:173-184 | Removes exactly the column's unique constraints when uniqueness goes or the column becomes the key; fails on a wrong number in strict mode and whenever one of them is referred to |
| `AlterFieldSteps.UniqueDropOutcome` | sqlserver_ado/schema.py:173-184 | The keys of the old uniqueness can be dropped if and only if nothing but the column's own foreign key refers to them |
| `SchemaEditing.SchemaEditor.DropInboundForeignKeys` | sqlserver_ado/schema.py:185-195 | Before a primary key is retyped every foreign key on a related column is gone, and nothing else |
| `SchemaEditing.SchemaEditor.DropIndexes` | sqlserver_ado/schema.py:196-203 | Removes exactly the indexes on the column when the index goes |
| `SchemaEditing.SchemaEditor.DropChecks` | sqlserver_ado/schema.py:204-214 | Removes exactly the column's checks when the check changes; fails exactly on a wrong number in strict mode |
| `AlterFieldTheorems.CheckDroppedExactlyWhen` | sqlserver_ado/introspection.py:332 | A check is dropped iff the field's check changes and the field's column is the only or the last one that it is defined on |
| `AlterFieldTheorems.SharedCheckUpsetsAgreement` | sqlserver_ado/introspection.py:332 | A check over several columns is counted with that of its last column, with which the catalog then cannot agree |
| `SchemaEditing.SchemaEditor.DropStaleConstraints` | sqlserver_ado/schema.py:160-214 | On a prepared database the five drops amount to one, exactly the stale constraints, unless strict mode counts a wrong number of unique constraints or one of them is referred to, and then they fail |
| `AlterFieldSteps.DropsCompose` | sqlserver_ado/schema.py:160-214 | Five drops, each deciding by the catalog the one before left, equal one drop decided by the first catalog |
| `SchemaEditing.SchemaEditor.AlterColumn` | sqlserver_ado/schema.py:215-333 | Rename, retype, default, fill and nullability: the column ends with the new name, type and nullability although the retype makes it nullable in between; it fails exactly when the name or the type is refused or NULL cells remain |
| `SchemaEditing.SchemaEditor.AddUnique` | sqlserver_ado/schema.py:334-338 | Adds one unique constraint exactly when the alteration calls for one |
| `SchemaEditing.SchemaEditor.AddIndex` | sqlserver_ado/schema.py:339-343 | Adds one index exactly when the alteration calls for one |
| `SchemaEditing.SchemaEditor.MovePrimaryKey` | sqlserver_ado/schema.py:349-369 | The table's old key is gone and the altered column has the new one; fails on a wrong number in strict mode and whenever the old key is referred to |
| `SchemaEditing.SchemaEditor.RetypeRelatedColumns` | sqlserver_ado/schema.py:344-387 | The loop over the related columns is the run of one type change for each new relation |
| `AlterFieldSteps.RetypeScriptEffect` | sqlserver_ado/schema.py:372-387 | That run is accepted on retypable columns and changes exactly their types, cells and nullability |
| `SchemaEditing.SchemaEditor.CreateForeignKey` | sqlserver_ado/schema.py:388-392 | Given that an old one was dropped, the column's foreign key is created exactly when the new field wants an enforced one, and the step fails exactly when that is not legal |
| `SchemaEditing.SchemaEditor.RebuildForeignKeys` | sqlserver_ado/schema.py:393-397 | The loop over the related objects creates the foreign key of each relation that is not many-to-many |
| `SchemaEditing.SchemaEditor.AddCheckConstraint` | sqlserver_ado/schema.py:398-407 | Adds the new check exactly when the check changed and there is one |
| `SchemaEditing.SchemaEditor.DropDefaultColumn` | sqlserver_ado/schema.py:466-485 | The endless loop ends, the measure being the defaults left, and removes exactly the column's default constraints |
| `SchemaEditing.SchemaEditor.AlterField` | sqlserver_ado/schema.py:152-416 | On every prepared database: the script reaches the closed form if and only if there is no obstacle, and else fails, with NotSupported, a wrong count or a NULL violation where the first obstacle is one of those |
| `AlterFieldSteps.RetypeStops` | sqlserver_ado/schema.py:218-228 | A type that is an IDENTITY, or that something on the column stands in the way of, is refused under either name of the column |
| `AlterFieldLegality.ColumnOutcome` | sqlserver_ado/schema.py:160-330 | After the drops the new name, the new type and the NULL cells are obstacles exactly when the catalog before says so |
| `AlterFieldProof.StagesEndInClosedForm` | sqlserver_ado/schema.py:152-412 | The databases between the parts of the script, composed, equal the closed form |
| `AlterFieldLegality.KeyOutcome` | sqlserver_ado/schema.py:349-369 | Where the key moves: the old key is the one that the table had, it is referred to iff a foreign key was left that refers to it, and else it can move |
| `AlterFieldLegality.RelatedOutcome` | sqlserver_ado/schema.py:372-387 | The related columns are all retyped, or the run fails, exactly when one of them is missing or something that survives stands in its way |
| `AlterFieldLegality.RelationsOutcome` | sqlserver_ado/schema.py:388-397 | The foreign keys, new and rebuilt, are all created exactly when they are legal in the catalog that the script leads to |
| `AlterFieldTheorems.ForeignKeyLegalExactlyWhen` | sqlserver_ado/schema.py:388-397 | That is so iff both columns are there with the same type and a key is left on the target or made on it |
| `AlterFieldTheorems.ReferredKeyCannotMove` | sqlserver_ado/schema.py:349-371 | A concrete model with a foreign key to its primary key: another field cannot become the key, the first obstacle is the reference |
| `AlterFieldTheorems.ReferredKeyCannotGo` | sqlserver_ado/schema.py:173-184 | The same model: its key cannot be unset without staying unique |
| `AlterFieldTheorems.NullsRemainExactlyWhen` | sqlserver_ado/schema.py:229-330 | The script is stopped by NULLs if and only if a nullable column holding NULL is tightened without a usable default |
| `AlterFieldTheorems.AlteredCellByCell` | sqlserver_ado/schema.py:228-330 | Cell by cell, told by the two fields: NULL becomes the default iff a nullable column is tightened and the new field has a default that is something, and else stays NULL; every other cell is unchanged up to conversion |
| `AlterFieldTheorems.OtherColumnsUntouched` | sqlserver_ado/schema.py:152-416 | Columns that are neither altered nor referring to the altered key keep type, nullability and cells |
| `AlterFieldTheorems.AlteredDatabaseAgrees` | sqlserver_ado/schema.py:152-416 | The catalog agrees with the new field: name, type, nullability, one foreign key iff the field wants it, covered by UNIQUE or PRIMARY KEY iff unique, exactly the new check or none, no default left |
| `AlterFieldTheorems.PrimaryKeyAfterwards` | sqlserver_ado/schema.py:349-369 | The column is the primary key afterwards if and only if the new field says so, or it was the key and stays unique |
| `AlterFieldTheorems.OtherConstraintsKept` | sqlserver_ado/schema.py:160-214 | Constraints that are not the column's own stay, except a replaced primary key and the inbound keys of a retyped one |
| `AlterFieldTheorems.OwnConstraintKeptExactlyWhen` | sqlserver_ado/schema.py:160-214 | For each constraint of the column itself, kind by kind and told by the two fields, whether it outlives the alteration |
| `AlterFieldTheorems.MadeExactlyWhen` | sqlserver_ado/schema.py:334-407 | What is made on the column, kind by kind and told by the two fields: one unique, index, primary key, foreign key or check where asked for, and none else |
| `AlterFieldTheorems.DefaultsPassing` | sqlserver_ado/schema.py:235-265 | A default constraint comes and goes exactly when the default changes to something |
| `AlterFieldTheorems.NothingElseCreated` | sqlserver_ado/schema.py:334-412 | Every new constraint is on the altered column or is an inbound foreign key made again |
| `AlterFieldTheorems.InboundForeignKeysConserved` | sqlserver_ado/schema.py:372-397 | After a type change of the primary key every related column carries exactly the foreign key that its relation describes, whatever was on it before, and has the new type |
| `AlterFieldTheorems.ForeignKeysConservedExactlyWhen` | sqlserver_ado/schema.py:393-397 | The foreign keys of a related column are conserved if and only if it carried exactly the one that the relation describes |
| `AlterFieldTheorems.SoftRelationIsEnforced` | sqlserver_ado/schema.py:393-397 | A concrete relation with `db_constraint` off has no foreign key before and one afterwards |
| `AlterFieldTheorems.KeysCounted` | sqlserver_ado/schema.py:334-369 | A unique column that had at most one key constraint ends with one, except in two cases with two: a field that was not unique becomes the primary key, or a primary key is unset and stays unique |
| `AlterFieldTheorems.LaterStrictAlterationStops` | sqlserver_ado/schema.py:173-184 | A column left with two keys stops the next strict alteration that takes its uniqueness away, with a wrong count |
| `AlterFieldTheorems.ReferringColumnAfterwards` | sqlserver_ado/schema.py:372-387 | A referring column keeps its cells up to conversion and is left nullable, whatever it was |
| `AlterFieldTheorems.StrictServerRefusesKeyRetype` | sqlserver_ado/schema.py:185-228 | The script keeps the primary key it retypes, so on a server that minds any constraint the new type is blocked, an obstacle for every such alteration |
| `AlterFieldTheorems.ExampleAlterable` | sqlserver_ado/schema.py:152-416 | The premises can be met in strict mode, by a key that changes its name and type and that another model refers to, with or without a foreign key |
| `SchemaEditing.SchemaEditor.AddField` | sqlserver_ado/schema.py:418-456 | The column is there with its inline constraints and without default; index and foreign key are deferred |
| `SchemaEditing.SchemaEditor.RunDeferred` | sqlserver_ado/schema.py:447-453 | The deferred statements run in order and none is left |
| `AddFieldTheorems.AddedFieldAgrees` | sqlserver_ado/schema.py:418-456 | Once the deferred statements ran the catalog agrees with the added field: type, nullability, one foreign key iff wanted, key iff unique, the check or none, no default left; it is the primary key iff the field is |
| `AddFieldTheorems.MadeWithFieldExactlyWhen` | sqlserver_ado/schema.py:429-453 | What comes with a field, kind by kind: one key, unique, index, foreign key or check where the field asks for it, and none else |
| `AddFieldTheorems.AddedCells` | sqlserver_ado/schema.py:429-442 | Existing rows hold the default in a NOT NULL column and NULL in a nullable one |
| `AddFieldTheorems.FieldForm` | sqlserver_ado/schema.py:418-456 | The constraints afterwards are the old ones and, in order, exactly the field's own |
| `SchemaEditing.SchemaEditor.RemoveField` | sqlserver_ado/schema.py:119-150 | Gets through if and only if everything on the column, or referring to it, is matched by one of the drops and there is no unique constraint, which DROP INDEX meets; then the column and exactly what was matched are gone |
| `AddRemoveSpec.OwnDroppable` | sqlserver_ado/schema.py:131-142 | On a removable column each kind's template fits every constraint it matches |
| `AddRemoveSpec.AddThenRemove` | sqlserver_ado/schema.py:418-456 | Adding a field, running what was deferred and removing it restores all tables, rows and constraints; the column is removable iff the field asked for no unique constraint |
| `SchemaEditing.SchemaEditor.DropAllInbound` | sqlserver_ado/schema.py:43-54 | The endless loop ends and removes exactly the foreign keys that refer to the table |
| `SchemaEditing.SchemaEditor.DeleteModel` | sqlserver_ado/schema.py:101-104 | The table, its constraints and every foreign key to it are gone and nothing else, however many there were |
| `AddRemoveSpec.DeletedExactly` | sqlserver_ado/schema.py:43-54 | A constraint goes with the model exactly when it is on the table or is a foreign key that refers to it; every other one is there unchanged |
| `Literals.QuotedReadsBack` | sqlserver_ado/schema.py:490-502 | The server reads a quoted text back as it was, whatever quotes it holds, and nothing of what follows |
| `Literals.DefaultOnTheServer` | sqlserver_ado/schema.py:235-257 | A text default, quoted into the DDL and sent through Cursor.execute, arrives unchanged iff it has no two percent signs in a row |
| `Connections.Connection.constructor` | sqlserver_ado/dbapi.py:317-328 | A new connection is outside autocommit exactly when it uses transactions, ADO is in one then, and the level says so |
| `Connections.Connection.SetAutocommit` | sqlserver_ado/dbapi.py:330-338 | Afterwards the mode is the one asked for, what was pending is rolled back when it changes, and the level is ADO's depth; the invariant is lost exactly when transactions are switched off on a provider that retains aborts |
| `Connections.Connection.Commit` | sqlserver_ado/dbapi.py:364-382 | What is pending becomes durable and a transaction is open again, whether the provider retains commits or not; the level equals the depth iff it does |
| `Connections.Connection.Rollback` | sqlserver_ado/dbapi.py:384-397 | What is pending is gone and a transaction is open again iff one was |
| `Connections.Connection.Close` | sqlserver_ado/dbapi.py:346-362 | Closing aborts what is pending; it fails exactly on a closed connection or on a provider that retains aborts in a transaction |
| `Connections.Connection.PerformAll` | sqlserver_ado/dbapi.py:317-397 | For every sequence of calls, failing ones included, ADO's depth is 1 iff the connection is open and transactional, and the state is that of the simple view |
| `Connections.Session` | sqlserver_ado/dbapi.py:375-380 | The outcome of a session does not depend on whether the provider retains commits |
| `Connections.DurableOnlyGrows` | sqlserver_ado/dbapi.py:364-397 | No sequence of calls takes back anything durable |
| `Connections.AllOrNothing` | sqlserver_ado/dbapi.py:364-397 | Outside autocommit a commit keeps every write since the last one; rollback, close and switching to autocommit keep none |
| `Connections.SwitchedTo` | sqlserver_ado/dbapi.py:330-338 | On the simple view: after a switch autocommit is what was asked for |
| `Connections.SwitchingOffStartsTransaction` | sqlserver_ado/dbapi.py:330-397 | From autocommit: after switching it off a commit keeps all writes; rollback, close and switching back keep none |
| `Connections.AutocommitKeepsWrites` | sqlserver_ado/dbapi.py:364-397 | In autocommit every write is durable at once, whatever follows |
| `Connections.ClosedStays` | sqlserver_ado/dbapi.py:352-362 | A closed connection stays as it is |
| `CursorFetch.Cursor.DescriptionFromRecordset` | sqlserver_ado/dbapi.py:490-513 | A closed recordset leaves nothing to fetch, an open one exposes its own rows |
| `CursorFetch.Cursor.FetchRows` | sqlserver_ado/dbapi.py:665-690 | The rows from the recordset's position on, cell by cell: None iff the cell is empty, else its value converted by the type of its own column; what is fetched followed by what remains is what was there; the number of rows, and None exactly for one row at the end; fails iff there is nothing to fetch from |
| `CursorFetch.Cursor.Remaining` | sqlserver_ado/dbapi.py:665-690 | What remains, by which the other fetches are told, cell by cell in the same way |
| `CursorFetch.Cursor.FetchOne` | sqlserver_ado/dbapi.py:692-704 | The first remaining row, or None exactly at the end |
| `CursorFetch.Cursor.FetchMany` | sqlserver_ado/dbapi.py:706-714 | As many rows as asked for or all that remain; 0 fetches everything; None exactly at the end with size 1 |
| `CursorFetch.Cursor.FetchAll` | sqlserver_ado/dbapi.py:716-719 | Exactly the remaining rows |
| `CursorFetch.Cursor.Iterate` | sqlserver_ado/dbapi.py:467-468 | Iterating ends after exactly the remaining rows |
| `CursorFetch.Cursor.Interleave` | sqlserver_ado/dbapi.py:665-719 | For any interleaving of fetches and steps of iteration, the results in order followed by what remains are the rows: none lost, none repeated |
| `CursorFetch.Cursor.NextSet` | sqlserver_ado/dbapi.py:721-737 | The next recordset's rows alone are exposed; true iff there is a next one |
| `CursorFetch.TransposeConverted` | sqlserver_ado/dbapi.py:685-690 | Converting column by column and zipping is converting row by row, each cell by its own column's type, and None iff it is empty |
| `ParameterStyle.Prepare` | sqlserver_ado/dbapi.py:597-647 | The loop produces the rewritten text and the bound values in order, or the error |
| `ParameterStyle.FormatIsExpand` | sqlserver_ado/dbapi.py:637-639 | Python's percent operator fills the holes of the template in order, or fails exactly on a stray percent sign or a wrong number |
| `ParameterStyle.ExecuteKeepsMeaning` | sqlserver_ado/dbapi.py:597-647 | Filling the emitted marks with the bound values gives the template filled with the original values, iff no two escaped percent signs are adjacent; in general adjacent ones are merged |
| `ParameterStyle.ExecuteFailsExactlyWhen` | sqlserver_ado/dbapi.py:604-639 | DataError iff some value has no ADO type, else a format error iff there are values and the template does not fit them |
| `Literals.UnboundReadsBack` | sqlserver_ado/dbapi.py:609-615 | The server reads what is written instead of None and of an empty text as NULL and as the empty text |
| `ParameterStyle.MarksMatchParameters` | sqlserver_ado/dbapi.py:604-647 | As many marks as bound parameters, for every template without a literal question mark |
| `ParameterStyle.ExecuteWithoutParameters` | sqlserver_ado/dbapi.py:637-644 | Without parameters the template arrives with each escaped percent sign as one |
| `ParameterStyle.PercentRunArrives` | sqlserver_ado/dbapi.py:637-644 | A run of 2n percent signs that no other touches, anywhere in any template: n arrive without parameters, half of n, rounded up, with parameters |
| `PatternLookups.PatternArrives` | sqlserver_ado/base.py:126-134 | pattern_ops with pattern_esc and any right-hand side filled in arrives with single percent signs around the right-hand side as it would arrive by itself, with and without parameters |
| `PatternLookups.ConditionText` | sqlserver_ado/base.py:126-134 | The text that arrives is the text of the CONCAT and REPLACE expression |
| `PatternLookups.PatternFindsExactlyWithoutBracket` | sqlserver_ado/base.py:126-134 | The pattern that the expression computes finds exactly the subjects that contain, start with or end with the right-hand side, if and only if the latter has no opening bracket |
| `Decimals.FormatDecimalAsString` | sqlserver_ado/dbapi.py:245-267 | The text built backwards, digit by digit, is the fixed-point notation |
| `Decimals.FixedPointRoundTrip` | sqlserver_ado/dbapi.py:245-267 | Parsing the text gives back sign, coefficient and exponent for every exponent not above 0, for -0.00 and values below 1 too |
| `Decimals.PositiveExponentKeepsValue` | sqlserver_ado/dbapi.py:252-254 | For a positive exponent the number is the same, and only zero loses its sign |
| `Decimals.CommaMakesNoDifference` | sqlserver_ado/dbapi.py:791-807 | With a comma for the point the same decimal is read |
| `ComDate.DecodeInvertsEncode` | sqlserver_ado/dbapi.py:828-833 | Decoding inverts OLE's encoding for every day, negative ones too, and every millisecond |
| `ComDate.DecodesAlike` | sqlserver_ado/dbapi.py:828-830 | Two numbers decode alike iff they are equal or opposites within a day of zero |
| `ComDate.ComDateRoundTrip` | sqlserver_ado/dbapi.py:810-837 | Every moment of whole milliseconds in the years 1 to 9999 comes back from its OLE date |
| `Like.PrepIsCharwise` | sqlserver_ado/operations.py:220-229 | The five successive replaces equal one escape, character by character |
| `Like.LikeExact` | sqlserver_ado/base.py:103-116 | The escaped text matches a subject iff it is that text |
| `Like.LikePrefix` | sqlserver_ado/base.py:103-116 | With a percent sign on the right: iff it is a prefix |
| `Like.LikeSuffix` | sqlserver_ado/base.py:103-116 | With a percent sign on the left: iff it is a suffix |
| `Like.LikeSubstring` | sqlserver_ado/base.py:103-116 | With percent signs on both sides: iff it is a substring |
| `Like.EscapesAgreeOnPrefixes` | sqlserver_ado/base.py:126-134 | With a percent sign on the right both ways of escaping match the same subjects iff the text has no opening bracket |
| `Like.EscapesAgreeOnSuffixes` | sqlserver_ado/base.py:126-134 | The same with a percent sign on the left |
| `Like.EscapesAgreeOnSubstrings` | sqlserver_ado/base.py:126-134 | The same with percent signs on both sides |
| `DateTrunc.YearStart` | sqlserver_ado/operations.py:119-121 | The reference expression is 1 January of the value's own year |
| `DateTrunc.CountsFit` | sqlserver_ado/operations.py:116-121 | Every DATEDIFF count that is asked for fits a signed 32-bit int, over the years 1 to 9999 |
| `DateTrunc.SecondsFrom1900Overflow` | sqlserver_ado/operations.py:117-118 | Counted from 1900 the seconds overflow for every moment from 1969 on, so the own-year reference is needed |
| `DateTrunc.TruncationIsLastBoundary` | sqlserver_ado/operations.py:108-129 | The expression is the greatest boundary not after the value; it has a value iff the part is minute or second or the year is at least 1753 |
| `TimeZones.OffsetReadBack` | sqlserver_ado/operations.py:88-90 | The offset text denotes the zone's offset iff that is not negative or is whole hours |
| `TimeZones.NegativeOffsetRead` | sqlserver_ado/operations.py:88-90 | What the server reads instead between whole hours below zero |
| `Durations.CombineDurationExpression` | sqlserver_ado/operations.py:495-524 | The branches build the nested DATEADD, operands in either order, or refuse the connector |
| `Durations.TwoLiterals` | sqlserver_ado/operations.py:500-523 | Two timedeltas end up as text that the server refuses |
| `Durations.RefusedExactlyWhen` | sqlserver_ado/operations.py:496-497 | A connector other than + and - is refused, nothing else |
| `Durations.LiteralDuration` | sqlserver_ado/operations.py:505-507 | For every normalised timedelta and any text: the exact sum or difference iff the text is a date and both steps fit, or the timedelta is zero; else the server refuses |
| `Durations.LiteralMinusDuration` | sqlserver_ado/operations.py:502-507 | A duration subtracted from a timedelta is right iff both are zero |
| `Durations.DurationAdded` | sqlserver_ado/operations.py:508-511 | Of two texts: the exact sum, negative durations included, iff the left is a date, the right a duration, its seconds an int and both steps in range; any other operands are refused |
| `Durations.DurationSubtracted` | sqlserver_ado/operations.py:508-514 | The exact difference iff the left is a date, the right a duration shorter than a second and the difference in range; without a date and a duration there is none |
| `Savepoints.SameDataExactlyWhen` | sqlserver_ado/base.py:317-325 | For every program that a releasing server accepts: without releases the data are the same after every step if and only if every rollback finds the same data in the youngest savepoint of its name as in the youngest one not released |
| `Savepoints.SameDataByNames` | sqlserver_ado/base.py:317-325 | They are, if no rollback targets a name whose youngest savepoint was released, a condition on names alone |
| `Savepoints.ReleasingMakesNoDifference` | sqlserver_ado/base.py:317-325 | That holds for every program with distinct names |
| `Savepoints.ReusedNameTellsThemApart` | sqlserver_ado/operations.py:481-485 | With a name used twice it is not |
| `Savepoints.SavepointTextsRead` | sqlserver_ado/operations.py:481-485 | The server reads the two statements as setting and as rolling back to that savepoint |
| `Savepoints.DatabaseWrapper.SavepointCommit` | sqlserver_ado/base.py:317-325 | A release changes nothing on the server; a query log in use gets one entry, a comment with the quoted name |
| `Savepoints.DatabaseWrapper.PerformAll` | sqlserver_ado/base.py:317-325 | A whole program that meets the condition ends on the wrapper with the data of a releasing server |
| `Slicing.Query.SetLimits` | sqlserver_ado/patches.py:5-8 | The new window is the slice of the old one, and the query is marked empty iff the window is |
| `Slicing.Query.AsSql` | sqlserver_ado/compiler.py:32-71 | The limits select exactly the window, iff the query is ordered or its text nowhere mentions an ordering, and are refused otherwise; an unordered one is ordered by its first column; the text is the SELECT, the ordering and limits that read back as these; FETCH counts are at least 1; the helper attribute is gone afterwards |
| `Slicing.LimitsRead` | sqlserver_ado/compiler.py:54-56 | OFFSET and FETCH read back from their text |
| `Slicing.MentionsInAnyCase` | sqlserver_ado/compiler.py:50 | The search finds the words in whatever case they stand |
| `Slicing.MentionsOnlyWords` | sqlserver_ado/compiler.py:50 | It finds nothing else |
| `Slicing.CompileSlices` | sqlserver_ado/compiler.py:32-63 | For any chain of slices: the empty query iff the chained list slice is empty for every table, no limits iff it is the whole table, else exactly the rows of the chained list slice, under the same condition |
| `Slicing.UnorderedWithSubquery` | sqlserver_ado/compiler.py:51-55 | Any chain of slices of an unordered query that mentions an ordering inside is refused, on every table, unless it is always empty or always the whole table |
| `OutputSplice.ValuesSpliced` | sqlserver_ado/compiler.py:82-87 | After a closer, the clause goes in before VALUES, white space kept |
| `OutputSplice.DefaultValuesSpliced` | sqlserver_ado/compiler.py:82-87 | The same before DEFAULT VALUES |
| `OutputSplice.CloserSkipped` | sqlserver_ado/compiler.py:82-87 | A closer followed by anything else is left alone |
| `InsertCompiler.InsertSpliced` | sqlserver_ado/compiler.py:148-150 | In an INSERT with any number of columns and rows the clause is spliced in at exactly one place |
| `InsertCompiler.FixInsert` | sqlserver_ado/compiler.py:97-152 | The rewritten text is the rendering of the intended batch of statements, the clause in the INSERT alone; without an AutoField and a key to return every text stays as it is |
| `InsertReader.SqlReads` | sqlserver_ado/compiler.py:97-152 | A batch of statements, text and parameters together, reads back as itself with a reader that does not know how it was written |
| `InsertSession.FixedInsertRuns` | sqlserver_ado/compiler.py:97-152 | What `_fix_insert` emits, run as the server reads it: accepted on a session with IDENTITY_INSERT off, which it leaves off; exactly the rows asked for, or one of defaults when no value is given; with a returned key NOCOUNT first, a table of the key's type, and exactly the primary keys |
| `InsertSession.OrdinaryInsert` | sqlserver_ado/compiler.py:97-152 | Ordinary names, types and rows meet the premises |
| `InsertSession.CoreRuns` | sqlserver_ado/compiler.py:103-126 | The INSERT, wrapped or not, is never refused for identity reasons and adds exactly its rows |
| `InsertSession.BatchInserts` | sqlserver_ado/compiler.py:97-152 | The batch is accepted, leaves IDENTITY_INSERT off, adds exactly the rows, and selects exactly their primary keys |
| `InsertSession.FieldlessInsertsOne` | sqlserver_ado/compiler.py:116-122 | Rows without fields are inserted right iff there is exactly one |
| `InsertSession.RowsHoldValues` | sqlserver_ado/compiler.py:97-152 | Each added row holds the values given for its columns |

## Left out

Where the code does less than one might expect, and what is proved instead:

- A field cannot become the primary key while a foreign key refers to the present one, although the code goes on to update the referring columns, and a key that is referred to cannot be unset: the server refuses the drop and `AlterField` fails (`AlterFieldTheorems.ReferredKeyCannotMove`, `AlterFieldTheorems.ReferredKeyCannotGo`).
- `_alter_field` retypes a primary key without dropping it; a strict server refuses every such alteration.
- A primary key that is unset and stays unique remains the primary key (`AlterFieldTheorems.PrimaryKeyAfterwards`); a column that was not unique and becomes the primary key gets a UNIQUE constraint beside it. `AlterFieldTheorems.KeysCounted` says that these are the only two cases with two keys, and `AlterFieldTheorems.LaterStrictAlterationStops` what comes of it in strict mode.
- Referring columns are left nullable after a type change of the key, one that is a primary key itself too (`AlterFieldTheorems.ReferringColumnAfterwards`).
- The rebuild of inbound foreign keys ignores `db_constraint` and makes one for a relation that had none (`AlterFieldTheorems.SoftRelationIsEnforced`); `AlterFieldTheorems.ForeignKeysConservedExactlyWhen` gives the exact condition.
- An AutoField that changes its type, or a field that becomes one, is refused: `AlterField` fails.
- `remove_field` fails for a field with a unique constraint, because `index=True` also finds that constraint and DROP INDEX refuses it.
- Introspection keeps only one column of a CHECK over several columns (sqlserver_ado/introspection.py:332). The model has the same quirk: `AlterFieldTheorems.CheckDroppedExactlyWhen` and `AlterFieldTheorems.SharedCheckUpsetsAgreement` say when such a CHECK goes with another one, and is counted with it.
- `fetchmany` with size 1 at the end of the rows answers None, while its own documentation promises an empty sequence; size 0 fetches everything. Negative sizes are not modelled.
- Switching autocommit on discards what is pending, as the code does, and leaves a transaction open on a provider that retains aborts.
- Two text operands: the second is always taken for the duration, so a duration plus a date, and a sum of two durations, are refused, and subtracting a duration of a second or more is wrong (`Durations.DurationAdded`, `Durations.DurationSubtracted`).
- A duration column cannot be changed by a literal other than zero, and a duration whose seconds do not fit an int is refused (`Durations.LiteralDuration`).
- A savepoint name that is used again can be rolled back to after its release (`Savepoints.ReusedNameTellsThemApart`); `Savepoints.SameDataExactlyWhen` gives the exact condition.
- A slice of an unordered query with an ordering inside, in a subquery or in a string, is refused, since the code only looks for the words (`Slicing.UnorderedWithSubquery`).
- INSERT without any field: a batch of several rows inserts one.
- A default text with two percent signs in a row arrives with one of them.

Not part of the model:

- The texts of the DDL templates and of the DATEADD expressions: these are abstract syntax. Read back from their text are INSERT batches, limits, savepoints, zone offsets, LIKE conditions, default literals and decimals.
- Exact outcome for secondary indexes in `_alter_field`: the closed form says which are dropped and added, but no agreement with `db_index` is claimed, since the code does not keep it.
- `quote_value` for dates, buffers, booleans and numbers: only text literals are modelled.
- `delete_db_column`, renaming tables, SQL collected without being executed, closing the connection after a change, many-to-many fields and fields without a column.
- The IDENTITY of a column is not part of the catalog: an AutoField that becomes an integer field keeps it on a real server, and adding an AutoField does not number the rows here.
- `_sql_drop_primary_key`, which nothing uses.
- Uniqueness and referential integrity of the rows themselves: adding a key or a foreign key is refused for reasons of the catalog, not of the data. A data conversion that fails is not modelled either.
- Server-initiated aborts, raw SQL that begins or ends transactions, errors inside a batch that leave IDENTITY_INSERT on.
- COM and ADO: connection, recordset and command are abstract objects; `connect`, error texts, destructors, timeouts, `callproc`, `executemany` totals, sizes and precision of parameters are left out.
- Percent conversions other than `%s` and `%%` in a template count as a format error.
- Collation, trailing blanks and Unicode in LIKE; case-insensitive operators are the same patterns under another collation.
- Time zones beyond the offset text: SWITCHOFFSET itself is not modelled, and truncation starts from the converted value.
- Floats: COM dates are exact real numbers, so rounding of the double is not captured; `_cvtFloat` is left out.
- `collapse_group_by`; the text of a SELECT up to its ordering is a parameter.
- `_fix_insert` for names with `)` or `]`, and for column names with a backslash, which the substitution would read as a group reference: `InsertCompiler.FixInsert` promises the batch with a returned key for names without closers only, and inserting the clause is literal.
- InsertSession.BatchInserts: the number of affected rows and triggers are not modelled.
- `creation.py`, management commands, `regex_clr`, type-name tables, `sql_flush`, connection strings and password masking: I/O, finite tables or simple members.
