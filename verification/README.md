# sqddl, modelled and proved in Dafny

sqddl compares two catalogs of a database schema, plans the migration from one to the other, runs migration scripts
and records them in a history table, and dumps rows, whole tables or subsets of them. This project models the parts
of it that hold the most state and the hardest promises, and proves what they keep.

`dafny verify dfyconfig.toml` checks everything. Each area is a few modules; `Common.dfy` and `Catalogs.dfy` are
shared.

**Subsetter** (`ForeignKeys`, `JoinSearch`, `SearchCompleteness`, `SearchNecessity`, `SubsetRows`, `SubsetWitness`,
`SubsetIntegrity`, `JoinSql`, `Subsetter`). A subset query names the rows of a base table that are wanted. A
stack-driven walk over the foreign keys builds chains of joins from every table involved back to the base; `Query`
turns the chains of a table into SELECTs. The model has the walk, a relational meaning of chains and of the FROM
clauses, and a class `Subsetter` with the results so far. The documentation promises a referentially intact dump
(`sqddl.md:879`). That does not hold for every graph: a foreign key is expanded once, so that a chain which reaches
a table later is not continued. `SubsetIntactExactly` says for which graphs the promise holds, and
`IntactIsComplete` builds, for every other graph, a database on which it fails.

**MySQL migrations** (`MySqlPlan`, `MySqlSql`, `MySqlPlanItems`, `MySqlDatabase`, `MySqlAlter`, `MySqlPhases`,
`MySqlCorrect`, `MySqlServer`, `MySqlServerRuns`, `MySqlServerCorrect`, `MySqlConverge`, `MySqlServerConverge`,
`MySqlReadBack`, `MySqlKeeps`, `MySqlAdds`, `MySqlSound`, `MySqlIgnored`, `MySqlMigrate`, `MySqlWitnesses`). The
planner's loops compute a plan, and the plan its statements. `MySqlDatabase` executes statements and refuses those
that name what is missing, or would leave a foreign key dangling. `MySqlServer` adds the indexes of foreign keys:
MySQL makes one for a foreign key that no key or index of its table serves, keeps it when the foreign key goes,
drops it once it is redundant, and refuses an ALTER TABLE that leaves a foreign key without any (InnoDB, section on
foreign key constraints of the MySQL manual). On such a server a plan that may drop objects goes through exactly if
dest keeps, table by table, an index for each foreign key that stays; then it reaches the wanted catalog, and there
is nothing left to plan exactly if no generated index has outlived its foreign key. A plan that may not drop objects
loses nothing, and leaves all that dest has. One exception is the code's: a table whose only change is dropped
columns gets no ALTER TABLE.

**SQLite migrations** (`SqliteTables`, `SqlitePlan`, `SqliteNames`, `SqliteShapes`, `SqliteInPlace`, `SqliteAlter`,
`SqliteCopy`, `SqliteSound`, `SqliteWitnesses`). A table is altered in place, or copied into a new one. Where a
foreign key is declared matters: SQLite drops the column of one that came with ADD COLUMN, but not of one that is
declared with the table, as CREATE TABLE here declares them all; and a column that comes needs a constant default,
or none if it takes nulls, once there are rows. The code does not look at either, so that the statements in place
reach the wanted table only under conditions, which are exact, and each has an input where a copy would have worked.
Where they hold, a copy comes to the same rows. Constraints are told apart by names that are generated from their
type, table and columns; `SqliteNames` says exactly when two of those are the same.

**Postgres migrations** (`PostgresTables`, `PostgresStages`, `PostgresColumns`, `PostgresRefinement`,
`PostgresGroups`, `PostgresStaged`, `PostgresReached`, `PostgresNames`, `PostgresSound`, `PostgresSql`,
`PostgresWitnesses`). NOT NULL, keys and foreign keys are added in stages to tables that are in use. The stages come
to what the direct changes come to under conditions that are exact, each with an input where it fails: the names of
the auxiliary checks, which Postgres cuts to 63 bytes, are free; no column becomes an identity column as it loses
its nulls; no key is deferrable; and no two foreign keys in a group go to and fro between two tables, since the
statements of a group name the table of its first foreign key.

**Migration runner** (`MigrationRunner`, `MigrateCommand`, `HistoryCommands`, `RunnerBatches`, `RunnerSafety`,
`RunnerHistory`, `RunnerOrder`, `RunnerNames`). A run picks the pending scripts, groups them in batches, and
executes each batch in a transaction or outside one, again and again on lock timeouts. How each step turns out is an
input, so that the theorems are over all runs: batches are all-or-nothing, scripts complete in order and once, `ls`
shows what `migrate` would run.

**Postgres arrays** (`PgArrayParser`, `PgArrays`, `PgBytea`, `PgCodecs`). The array parser, the buffer-filling
writers and both bytea formats, which undo each other (PostgreSQL manual, sections 8.15.6, 8.4.1 and 8.4.2). Arrays
within arrays are read as their elements exactly if the lengths of the last ones divide the number of elements,
which accepts some that are not rectangular.

**Struct-tag modifiers** (`Modifiers`, `ModifierRoundTrip`). The printer and the brace-nested parser; the round trip
holds exactly if the printer did not leave out the space after a first modifier of one character; dialects are read,
but not printed.

**Catalog cache** (`CachePositions`, `CacheIndexing`, `CatalogMerging`, `CatalogCache`, `CatalogWriting`). A class
of position maps beside lists that are changed in place. A new cache knows what is in a catalog, and every lookup is
a scan; a catalog written into an empty one is a copy of it, and written again it is unchanged exactly if nothing is
ignored and all constraints have names. A table that is made over an ignored one inherits its positions: lookups in
it are right exactly if the old one was blank, and the code panics at the first column otherwise.

**Batch insert** (`BatchInserts`, `BatchRuns`, `BatchUpserts`, `BatchSqlServer`, `BatchResults`). Rows are inserted
in batches under a parameter limit; whatever the size of a batch, the table is that of row-by-row upserts, and a
statement is refused exactly if a batch repeats a key that its dialect does not let it repeat. The comment on
`Batchsize` (`ddl/batch_insert.go:18`) promises a default for negative sizes; in the code such a size makes the
allocation of the arguments panic, and so it does here.

## Model

| member | source | states |
|---|---|---|
| `Subsetting.Subsetter.constructor` | ddl/subsetter.go:39-57 | A new subsetter has an index of the foreign keys that reference each table, no chains and no results. |
| `Subsetting.Subsetter.Index` | ddl/subsetter.go:57-73 | For every table, the foreign keys that reference it, in catalog order; tables that are not referenced have none. |
| `ForeignKeys.ReferencedByInOrder` | ddl/subsetter.go:57-73 | In that list, a foreign key has its place behind those of earlier tables and those before it in its own table. |
| `Subsetting.Subsetter.NewJoins` | ddl/subsetter.go:346-390 | Of the chains of one table, those that do not pass through the other table yet, each extended to it by the constraint. |
| `Subsetting.Subsetter.Loop` | ddl/subsetter.go:330-391 | The stack-driven loop equals the recursive search of its direction; it ends on cyclic graphs, because a constraint is popped once for good. |
| `Subsetting.Subsetter.FindJoins` | ddl/subsetter.go:303-433 | The chains and visited set of `Subset`, or of `ExtendedSubset` with its two phases over one visited set. |
| `Subsetting.Subsetter.Lookup` | ddl/subsetter.go:137-148 | Missing table is an error, and so is a table none of whose constraints is a primary key; otherwise the key is the columns of the last primary key in the list of constraints, and no other constraint counts. |
| `Subsetting.Subsetter.Subset` | ddl/subsetter.go:303-437 | A missing table, or one without a primary key among its constraints, changes nothing; otherwise the run's chains, all simple paths to the base, are added and its primary keys kept as one more result. |
| `Subsetting.Subsetter.Merge` | ddl/subsetter.go:434-437 | The chains of a search join those of earlier searches, table by table, and the result number is noted for each table. |
| `Subsetting.Subsetter.Add` | ddl/subsetter.go:434-437 | What has been found so far stays, and the invariant between chains and results is kept. |
| `Subsetting.Subsetter.Query` | ddl/subsetter.go:443-587 | The SELECTs written for a table, run with the results that the query lists as common table expressions and no others, return exactly the rows that some subset query dumps; no text is written exactly if the table or its key is missing or no chain leads to it. |
| `SubsetRows.KeyExactly` | ddl/catalog_cache.go:773-782 | What the search and the queries take for the key, on the list of constraints: an error exactly if none is of type primary key, else the columns of the last one that is. |
| `JoinSearch.StoredChainsAreSimplePaths` | ddl/subsetter.go:318-433 | Every chain stored in either phase starts with the base and its key, visits no table twice, links consecutive tables by a foreign key in one direction or the other, and is kept under its last table; every table entered has a chain. |
| `JoinSearch.SubsetEnters` | ddl/subsetter.go:324-391 | `Subset` enters exactly the tables that the base depends on, and follows exactly their foreign keys. |
| `JoinSearch.ExtendedSubsetEnters` | ddl/subsetter.go:330-433 | The first phase enters exactly the tables that depend on the base any number of steps away, and after the second exactly the tables those depend on have been entered. |
| `JoinSearch.RunEntersExactly` | ddl/subsetter.go:330-391 | The loop enters exactly the tables reached from those it starts with. |
| `SearchCompleteness.TreesAreComplete` | ddl/subsetter.go:393-433 | Without cycles and with single entries, every stored chain is continued along every foreign key of its last table, but for the one it came by. |
| `SearchNecessity.CompleteExactly` | ddl/subsetter.go:393-433 | The parent-ward loop misses no chain exactly if the graph has no cycle, no table with keys of its own is entered by two foreign keys, and the first phase leaves no key behind. |
| `SearchNecessity.EntriesAgree` | ddl/subsetter.go:399-402 | A constraint is expanded once: if the search is complete, two foreign keys into a table with keys of its own are the same. |
| `SearchNecessity.SubsetCompleteExactly` | ddl/subsetter.go:324-391 | `Subset` misses no chain exactly if the tables the base depends on form no cycle and have single entries. |
| `SearchNecessity.ExtendedSubsetCompleteExactly` | ddl/subsetter.go:330-433 | `ExtendedSubset` misses no chain exactly if the tables that depend on the base form a tree and the rest is acyclic with single entries. |
| `SubsetRows.CompleteIsIntact` | ddl/subsetter.go:393-437 | If no chain is missed and every table has a primary key, each filled foreign key of a dumped row has its parent row dumped. |
| `SubsetWitness.IntactIsComplete` | ddl/subsetter.go:393-437 | The dump is intact on every database exactly if the search missed no chain: a missed chain has a database on which it is not. |
| `SubsetIntegrity.SubsetIntactExactly` | sqddl.md:879 | The documented promise of referential integrity, with its exact condition for `Subset`: every table the base depends on has a primary key, there is no cycle, and every table with keys of its own is entered by a single foreign key. |
| `SubsetIntegrity.ExtendedSubsetIntactExactly` | sqddl.md:896 | The same for `ExtendedSubset`, where every table reached has a primary key. |
| `SubsetIntegrity.SubsetIsIntact` | sqddl.md:879 | For any columns that keys and foreign keys share, as in join tables: keyed tables without cycles and with single entries give an intact dump on every database. |
| `SubsetIntegrity.ExtendedSubsetIsIntact` | sqddl.md:896 | The same for `ExtendedSubset`. |
| `SubsetIntegrity.ManyQueriesIntact` | sqddl.md:879 | Any number of subset queries that are intact by themselves give one intact dump. |
| `SubsetIntegrity.DiamondIsNotIntact` | ddl/subsetter.go:399-402 | On a diamond of tables, some database has a dump that is not intact. |
| `JoinSql.ToSql` | ddl/subsetter.go:651-696 | The text of a chain is what the walk over its keys from the last to the first writes, or a panic where the walk finds no end to continue from. |
| `JoinSql.ChainIsNotBroken` | ddl/subsetter.go:651-696 | For a stored chain there is no panic: the clauses join the tables of the chain in reverse order, the last one the results of the query. |
| `JoinSql.SqlMeansChain` | ddl/subsetter.go:651-696 | Evaluated on the database and the results, the FROM clause of a stored chain selects exactly the rows that the chain selects. |
| `MySqlPlan.NewMigration` | ddl/mysql_migration.go:35-268 | The nested loops compute the plan: the sum of what each schema and table calls for. |
| `MySqlPlan.CompareTable` | ddl/mysql_migration.go:122-265 | The foreign keys to drop and to add and the ALTER TABLE of one table. |
| `MySqlMigrate.Migrate` | ddl/mysql_migration.go:35-492 | From two catalogs to statements: with drops they go through on a server of src exactly if the plan fits, and then reach dest; without, they lose nothing on any server, and if they go through on a server of src, all of dest is there. |
| `MySqlSound.MigrationKeeps` | ddl/mysql_migration.go:270-492 | Wherever a migration stops, with drops or without, a sound database is still sound: no constraint or index names a column that is not there, no table has two primary keys, and every foreign key refers to a key. |
| `MySqlSql.Sql` | ddl/mysql_migration.go:270-492 | The statements in the order of the files: foreign keys dropped, schemas, tables, ALTER TABLEs, foreign keys added. |
| `MySqlSql.CreateSql` | ddl/dump_cmd.go:1016-1093 | A CREATE TABLE states the columns that are not ignored and every constraint that is not a foreign key; indexes follow. |
| `MySqlPlanItems.PlanContains` | ddl/mysql_migration.go:35-268 | The plan contains a statement exactly if the two catalogs call for it. |
| `MySqlPlanItems.PlanProper` | ddl/mysql_migration.go:35-268 | No table is created or altered twice, and no foreign key dropped or added twice. |
| `MySqlIgnored.IgnoredIsLeftAlone` | ddl/mysql_migration.go:35-268 | Whatever is ignored in the two catalogs: a plan drops, creates or alters nothing that is, nor a part of anything that is. |
| `MySqlServerRuns.FkeyDropsPerform` | ddl/mysql_migration.go:274-291 | Dropping foreign keys that are there goes through and removes exactly those; the indexes that MySQL made for them stay. |
| `MySqlPhases.SchemaDropsRun` | ddl/mysql_migration.go:293-310 | Dropping schemas that no foreign key points into goes through, with all their tables. |
| `MySqlServerRuns.TableCreationsPerform` | ddl/mysql_migration.go:345-369 | Creating new tables goes through exactly if no table has a key and an index of one name, and each has its columns, keys and indexes. |
| `MySqlServerRuns.AlterationsPerform` | ddl/mysql_migration.go:371-471 | ALTER TABLEs of different tables, each of which keeps what foreign keys to its table need, go through exactly if each leaves every foreign key of its own table an index, and the names of keys and indexes different. |
| `MySqlServerRuns.FkeyAddsPerform` | ddl/mysql_migration.go:473-490 | Adding foreign keys that have the keys they reference goes through exactly if each is served by a key or index of its table, or the name of the index that MySQL makes for it is free. |
| `MySqlServerRuns.ServedExactly` | ddl/mysql_migration.go:473-490 | What is served while foreign keys are added: what was before, and whatever those already added start with. |
| `MySqlAlter.AlterReaches` | ddl/mysql_migration.go:371-471 | Taken one after another, the clauses of a table's ALTER TABLE leave the constraints, indexes and columns of dest; that the table passes the checks then is part of the next row. |
| `MySqlAlter.DifferExactly` | ddl/mysql_migration.go:180-209 | Columns are compared in their type, default, effective collation, presence of an identity, and NOT NULL unless dest has them in a primary key; that is what is meant by a column that dest has being there. |
| `MySqlServerCorrect.MigrationReachesExactly` | ddl/mysql_migration.go:35-492 | For consistent catalogs that agree, on every server that src describes, a plan with drops runs to its end exactly if, table by table, the keys and indexes of dest and the generated ones that are left have different names and serve each foreign key that stays, and each one that comes is served or can have its index; then it leaves dest, its columns too unless all the table's ALTER TABLE would do is drop columns. |
| `MySqlServerConverge.NeededIndexIsKept` | ddl/mysql_migration.go:222-236 | A plan that drops the only index serving a foreign key that stays is stopped by MySQL. |
| `MySqlWitnesses.NeededIndexWitness` | ddl/mysql_migration.go:222-236 | Such as a table with a foreign key on a and an index on a, which dest does not have: the catalogs are consistent and agree, and the plan stops. |
| `MySqlConverge.PlanIsEmptyExactly` | ddl/mysql_migration.go:68-267 | A plan with drops is empty exactly if the catalogs are settled: no schema, table, key, index or column is missing on either side, except for dropped columns and CHECKs. |
| `MySqlConverge.NothingToItself` | ddl/mysql_migration.go:68-267 | A catalog needs no migration to itself. |
| `MySqlServerConverge.MigrationConvergesExactly` | ddl/mysql_migration.go:35-492 | Planning again, from the catalog read back after a migration with drops, plans nothing exactly if no generated index has outlived its foreign key; without drops it plans nothing in any case. |
| `MySqlServerConverge.IndexOutlives` | ddl/mysql_migration.go:128-168 | A foreign key that is dropped from a table that stays leaves its generated index behind, unless something in dest makes it redundant: then the next plan is not empty. |
| `MySqlServerConverge.KeptKeysLeaveNone` | ddl/mysql_migration.go:128-168 | If no table that stays loses a foreign key with a generated index, none is left. |
| `MySqlReadBack.AfterIsRead` | ddl/introspection_scripts/mysql_indexes.sql:24-29 | What a migration leaves is always that of a catalog: the one in which indexes with the name of a constraint do not show. |
| `MySqlConverge.EmptyWithoutDrops` | ddl/mysql_migration.go:128-168 | Where there is nothing to do with drops, there is nothing to do without. |
| `MySqlKeeps.NothingIsLost` | ddl/mysql_migration.go:68-267 | Without drops, a migration that goes through keeps every schema, table, column, index and constraint; a primary key may move to other columns. |
| `MySqlAdds.MigrationGrows` | ddl/mysql_migration.go:68-492 | Without drops, a migration that goes through leaves just what src has and what dest has: every schema, table, column, key, foreign key and index of dest as dest has it, the rest as src has it; only CHECKs are not added to tables that were there. |
| `MySqlKeeps.DroppedColumnStays` | ddl/mysql_migration.go:257-262 | A table that only loses a column gets no ALTER TABLE, so that the column stays. |
| `MigrateCommand.MigrateCmd.Run` | ddl/migrate_cmd.go:449-573 | One attempt at a batch: BEGIN and COMMIT around the scripts if the batch is transactional, ROLLBACK on a failure. |
| `MigrateCommand.MigrateCmd.Undo` | ddl/migrate_cmd.go:576-605 | The undo script is run if there is one. |
| `MigrateCommand.MigrateCmd.RecordFailure` | ddl/migrate_cmd.go:413-441 | Rows 0 to stoppedAt are written with success false, and no other row. |
| `MigrateCommand.MigrateCmd.RunWithRetry` | ddl/migrate_cmd.go:364-447 | A batch is tried again on lock timeouts, if it is a transaction or a single statement, while attempts are left. |
| `MigrateCommand.MigrateCmd.Fill` | ddl/migrate_cmd.go:214-251 | The rows, in whatever order they come, fill the slice through the index map. |
| `MigrateCommand.MigrateCmd.Migrate` | ddl/migrate_cmd.go:278-326 | A whole run: the loop with its queue does what the recursive specification does. |
| `RunnerBatches.RunEnds` | ddl/migrate_cmd.go:449-573 | A successful attempt leaves every script completed and recorded; one that fails in a transaction leaves no effect, and none leaves a record. |
| `RunnerBatches.BatchIsAllOrNothing` | ddl/migrate_cmd.go:364-573 | Over all attempts, either every script of the batch completed and has a success row, or none did; then exactly rows 0 to stoppedAt say failure, or none after exhausted lock timeouts or a failed BEGIN. |
| `RunnerBatches.AttemptsAreBounded` | ddl/migrate_cmd.go:386-404 | `run` is called at least once, at most MaxAttempts times if that is more, and once only if the batch cannot be retried. |
| `RunnerSafety.MigrateEnds` | ddl/migrate_cmd.go:278-326 | The batches are the pending scripts in order, as few as possible: special scripts and MySQL scripts alone, two plain neighbours together. A run that fails has completed the first n, and no later file's row has changed but the next few marked failed. |
| `RunnerOrder.CompletedInOrder` | ddl/migrate_cmd.go:278-326 | Wherever a run stops, the scripts that it has completed are some of the migrations among the files, in the order of the files, repeatable ones last. |
| `RunnerOrder.RunCompletesExactly` | ddl/migrate_cmd.go:206-326 | A run that succeeds completes, in that order, exactly the migrations whose row does not say success, or says it of another checksum if they are repeatable. |
| `RunnerNames.BatchesByName` | ddl/migrate_cmd.go:297-316 | A file whose name ends in .tx.sql or .txoff.sql is alone in its batch, and so is every file on MySQL. |
| `RunnerNames.NextBatchByName` | ddl/migrate_cmd.go:297-316 | Two batches follow each other only on MySQL, or if the last file of one or the first of the other has such a name. |
| `RunnerNames.TransactionExactly` | ddl/migrate_cmd.go:365-365 | A batch is a transaction exactly if it has more files than one, or its file ends in .tx.sql, or neither ends in .txoff.sql nor is run on MySQL. |
| `RunnerNames.UndoFileExactly` | ddl/migrate_cmd.go:577-578 | The undo script of p.sql and of p.txoff.sql is p.undo.sql. |
| `RunnerNames.UndoIsRun` | ddl/migrate_cmd.go:576-605 | If a script of more than one statement fails outside a transaction, and its undo script goes through, then what it did and the undo script are all that is done. |
| `RunnerNames.FailureIsUndone` | ddl/migrate_cmd.go:407-447 | What a script that fails leaves: nothing if it was in a transaction; what it did if it is a single statement or has no undo script; else the undo script as well, run or failed. |
| `RunnerNames.TimeoutIsRetried` | ddl/migrate_cmd.go:386-406 | A script in a transaction that runs into a lock timeout completes at the next attempt if nothing fails then; if it fails for another reason, that is the only attempt and nothing is left. |
| `RunnerNames.CommitIsRetried` | ddl/migrate_cmd.go:386-406 | The same if it is the COMMIT that fails. |
| `RunnerNames.BeginFails` | ddl/migrate_cmd.go:390-412 | If BEGIN fails, nothing is executed and no row is written; if it runs into a lock timeout, the run crashes. |
| `RunnerHistory.MigrateIsOnceOnly` | ddl/migrate_cmd.go:206-326 | A run, failing anywhere, keeps it that scripts that are not repeatable have completed at most once, given distinct file names and working history writes. |
| `RunnerHistory.EachScriptCompletesOnce` | ddl/migrate_cmd.go:206-326 | The same over any sequence of runs of migrate and touch. |
| `RunnerHistory.SecondRunIsEmpty` | ddl/migrate_cmd.go:278-316 | After a run that succeeds, another on unchanged files has nothing to queue. |
| `RunnerHistory.FineRun` | ddl/migrate_cmd.go:278-326 | If no step fails, the run succeeds. |
| `RunnerHistory.SuccessHasStarted` | ddl/migrate_cmd.go:423-439 | Over any sequence of migrate, touch, rm and mv, a row that says success has a start time. |
| `RunnerHistory.NamedTwiceRunsTwice` | ddl/migrate_cmd.go:206-212 | A new file that is named twice on the command line runs twice: the files have to be distinct. |
| `RunnerHistory.UnrecordedRunsAgain` | ddl/migrate_cmd.go:537-562 | A script outside a transaction whose row cannot be written completes again in each run: history writes have to work. |
| `RunnerHistory.LsAgreesExactly` | ddl/ls_cmd.go:195-217 | `ls` and `migrate` agree on a file exactly if its row does not say success without a start time, with the stored checksum equal to that of the file where it is repeatable. |
| `RunnerHistory.LsShowsPending` | ddl/ls_cmd.go:118-217 | After any commands, the files that `ls` shows as pending or failed are exactly those that `migrate` would run. |
| `RunnerHistory.LsListsPending` | ddl/ls_cmd.go:118-217 | The lines of `ls` are the files that `migrate` would run: pending if no row says they were started, or if they are repeatable and have changed; failed if their row says so. |
| `RunnerNames.FailureIsShown` | ddl/ls_cmd.go:195-199 | A script that was started and failed is shown as failed, if its row could be written. |
| `HistoryCommands.Ls` | ddl/ls_cmd.go:118-217 | The files with their status, those that are applied left out. |
| `HistoryCommands.SortAndFilterFilenames` | ddl/touch_cmd.go:325-345 | The loop over the two slices; that each migration ends up in its place is the next row but one. |
| `HistoryCommands.SortAndFilterSorts` | ddl/touch_cmd.go:325-345 | No migration is lost or doubled, nothing else is kept, and no repeatable script comes before one that is not. |
| `HistoryCommands.SortAndFilterPlaces` | ddl/touch_cmd.go:325-345 | Each migration stands behind exactly those of its kind that were given before it, and, if it is repeatable, behind all that are not; nothing else is in the list. |
| `HistoryCommands.SortAndFilterOrders` | ddl/touch_cmd.go:325-345 | Of two migrations of one kind, the one given first comes first; of two kinds, the one that is not repeatable. |
| `RunnerNames.MigrationExactly` | ddl/touch_cmd.go:328-336 | Migrations are the .sql files that do not end in .undo.sql and whose last path element is not schema.sql, indexes.sql or constraints.sql. |
| `HistoryCommands.TouchRows` | ddl/touch_cmd.go:137-178 | The row producer, which reuses one slice, writes the rows of the specification. |
| `HistoryCommands.TouchedRow` | ddl/touch_cmd.go:153-178 | Each touched file has a row with success and a start, and a checksum exactly if it is repeatable; other rows stay. |
| `PgArrayParser.ParseArray` | internal/pqarray/pqarray.go:797-894 | The three loops compute the parser's specification, on every text and with every delimiter that is not empty: they end, and no dimension that elements are divided by is zero. |
| `PgArrays.NestedParsesExactly` | internal/pqarray/pqarray.go:797-894 | A text of arrays within arrays of equal depth, with quoted, bare and NULL elements, is read as its elements in order and the lengths of the last arrays, exactly if each of those divides the number of elements; otherwise it is refused. |
| `PgArrays.RectangleParses` | internal/pqarray/pqarray.go:797-894 | Arrays beside one another of the same lengths are always read, with those lengths. |
| `PgArrays.RaggedIsAccepted` | internal/pqarray/pqarray.go:886-892 | Others are not always refused: {{1,2,3},{4}} is read as two arrays of one element, with four elements. |
| `PgArrays.AcceptedIsBracketed` | internal/pqarray/pqarray.go:797-894 | Any text that is accepted is in brackets, and its lengths are positive and divide the number of its elements. |
| `PgArrays.ElementsParse` | internal/pqarray/pqarray.go:797-905 | A text of quoted, bare or NULL elements between brackets and commas is read as those elements, with one dimension. |
| `PgBytea.ParseBytea` | internal/pqarray/pqarray.go:907-951 | The hex format is decoded or refused; the escape format is decoded by runs of raw bytes and octal escapes. |
| `PgBytea.EncodeBytea` | internal/pqarray/pqarray.go:991-1017 | Hex from version 9.0 on, else escapes for backslashes and bytes that are not printable. |
| `PgBytea.HexReadsExactly` | internal/pqarray/pqarray.go:908-916 | Hex text is read as bytes exactly if it is their pairs of digits, in upper or lower case. |
| `PgBytea.OctalExactly` | internal/pqarray/pqarray.go:927-936 | Octal escapes are three digits from 0 to 7, up to 377. |
| `PgBytea.HexRoundTrip` | internal/pqarray/pqarray.go:907-951 | Hex digits decode to the bytes they encode. |
| `PgBytea.EscapeRoundTrip` | internal/pqarray/pqarray.go:991-1017 | Escaped bytes decode to the original bytes. |
| `PgBytea.ByteaRoundTrip` | internal/pqarray/pqarray.go:907-1017 | For every server version and all bytes, decoding undoes encoding: the escape format is never taken for hex. |
| `PgCodecs.ScanLinearArray` | internal/pqarray/pqarray.go:896-905 | An array of more than one dimension is refused. |
| `PgCodecs.NestedIsRefused` | internal/pqarray/pqarray.go:896-905 | Arrays within arrays are refused by all of the types. |
| `PgCodecs.NullIsRefused` | internal/pqarray/pqarray.go:653-671 | A NULL among strings or booleans is refused, wherever it stands. |
| `PgCodecs.NullIsEmptyBytea` | internal/pqarray/pqarray.go:177-197 | A NULL among bytea values comes back as a value without bytes. |
| `PgCodecs.AppendArrayQuotedBytes` | internal/pqarray/pqarray.go:764-779 | Quotes and backslashes get a backslash, all else is copied, in quotes. |
| `PgCodecs.StringValue` | internal/pqarray/pqarray.go:673-694 | Null for a nil array, else the elements quoted, with commas and brackets. |
| `PgCodecs.ScanStrings` | internal/pqarray/pqarray.go:653-671 | The elements of the text; a null element is an error. |
| `PgCodecs.StringRoundTrip` | internal/pqarray/pqarray.go:653-694 | Every array of strings comes back, quotes, backslashes, empty strings and NULL included. |
| `PgCodecs.BoolValue` | internal/pqarray/pqarray.go:131-157 | The buffer is filled exactly: twice the number of elements and one byte more. |
| `PgCodecs.ScanBools` | internal/pqarray/pqarray.go:103-129 | Elements other than t and f are errors. |
| `PgCodecs.BoolRoundTrip` | internal/pqarray/pqarray.go:103-157 | Every array of booleans comes back. |
| `PgCodecs.FillByteas` | internal/pqarray/pqarray.go:214-225 | The values fill the buffer that was sized for them, but for its last byte. |
| `PgCodecs.ByteaValue` | internal/pqarray/pqarray.go:199-228 | Null for a nil array, else exactly the text of its elements. |
| `PgCodecs.ScanByteas` | internal/pqarray/pqarray.go:177-197 | Each element is decoded; what cannot be is an error. |
| `PgCodecs.ByteaArrayRoundTrip` | internal/pqarray/pqarray.go:177-228 | Every array of byte strings comes back. |
| `Modifiers.WriteBuf` | ddl/modifier.go:93-131 | The shared buffer grows by the text of the modifier, after a space if it has more than one character. |
| `Modifiers.ToString` | ddl/modifier.go:52-62 | The text of all modifiers. |
| `Modifiers.ReadValue` | ddl/modifier.go:135-172 | A value up to a space outside braces, its outer braces removed, and what comes after it; an error if a brace is not closed. |
| `Modifiers.ReadModifier` | ddl/modifier.go:174-210 | A name with its dialects, and its raw value. |
| `Modifiers.NewModifiers` | ddl/modifier.go:33-50 | All modifiers of a text that have a name; the loop ends on every text. |
| `Modifiers.ParseRawValue` | ddl/modifier.go:78-91 | The first value of a raw value, and the modifiers after it. |
| `ModifierRoundTrip.ListReadsBack` | ddl/modifier.go:33-210 | Printed and read back at every level, a list of modifiers is the same, but for a dot in place of an empty value before submodifiers. |
| `ModifierRoundTrip.ModifiersRoundTripExactly` | ddl/modifier.go:93-98 | The round trip works, but for what the printer does not print, exactly if the first two modifiers do not run together: the printer puts no space after a first modifier of one character. |
| `ModifierRoundTrip.SameAfterRoundTripExactly` | ddl/modifier.go:93-131 | Modifiers come back the same exactly if, besides, none has dialects, which are not printed, and none has submodifiers without a value. |
| `ModifierRoundTrip.DialectsAreRead` | ddl/modifier.go:174-210 | Dialects before a name, with commas between them and a colon after them, are read as written; but if a space follows the equals sign, they stay part of the name. |
| `CatalogCaches.CatalogCache.constructor` | ddl/catalog_cache.go:27-111 | A new cache has the positions of every schema, table, column, constraint and index, right wherever names are different, and nothing under any other name. |
| `CacheIndexing.TableKnownExactly` | ddl/catalog_cache.go:66-98 | Once a table is indexed, its positions are right exactly if whatever was noted about a table of its name before is noted again. |
| `CacheIndexing.ListsAreKnown` | ddl/catalog_cache.go:53-107 | Schemas with different names, and tables with different names in each, are all known, and nothing is noted under other names. |
| `CatalogCaches.CatalogCache.IndexTable` | ddl/catalog_cache.go:66-103 | The positions of one table: a later object over an earlier one of its name, and nothing else changed. |
| `CatalogCaches.CatalogCache.IndexConstraints` | ddl/catalog_cache.go:80-98 | Positions by name, of the last primary key, and of all foreign keys in order. |
| `CatalogCaches.CatalogCache.GetTable` | ddl/catalog_cache.go:385-394 | The last table of the name, as a scan finds it, unless that one is ignored; none in no schema. |
| `CatalogCaches.CatalogCache.GetOrCreateTable` | ddl/catalog_cache.go:402-414 | The place of that table, or of a new one at the end; the cache stays in step, and knows the lists of the new table if it knew all that could be found. |
| `CacheIndexing.AllKnownExactly` | ddl/catalog_cache.go:402-414 | That is so exactly if the ignored tables, over which new ones would be made, have nothing that is noted. |
| `CacheIndexing.RemadeIsUnknownExactly` | ddl/catalog_cache.go:402-414 | Lookups in a table made over an ignored one are right exactly if the old one had nothing that is noted. |
| `CatalogWriting.IgnoredTablePanics` | ddl/catalog_cache.go:453-456 | A catalog with an ignored table that has a column: its cache holds a position that is outside the list of the table made in its place, so that WriteCatalog panics there. |
| `CatalogCaches.CatalogCache.AddOrUpdateTable` | ddl/catalog_cache.go:418-429 | The table is put in that place or at the end; positions of tables stay in step, those within the table are not touched. |
| `CacheIndexing.ReplacedIsKnownExactly` | ddl/catalog_cache.go:418-429 | So columns and indexes are found afterwards exactly if the new table has the names of the old one in the same order. |
| `CatalogCaches.CatalogCache.GetColumn` | ddl/catalog_cache.go:436-445 | A lookup equals a scan for the last column of the name that is not ignored. |
| `CatalogCaches.CatalogCache.GetOrCreateColumn` | ddl/catalog_cache.go:453-467 | The column's place, or that of a new one at the end; what is cached of other tables stays. |
| `CatalogCaches.CatalogCache.AddOrUpdateColumn` | ddl/catalog_cache.go:471-483 | The list is the one with the column put in its place or at the end. |
| `CatalogCaches.CatalogCache.GetConstraint` | ddl/catalog_cache.go:491-500 | A lookup by a name equals a scan; without a name it finds the constraint that GetOrCreateConstraint has noted, if any. |
| `CatalogCaches.CatalogCache.GetOrCreateConstraint` | ddl/catalog_cache.go:508-530 | The constraint's place, or that of a new one, which is noted by any name, the empty one included, and among primary and foreign keys. |
| `CatalogCaches.CatalogCache.AddOrUpdateConstraint` | ddl/catalog_cache.go:534-554 | The list has the constraint in the place noted for it or at the end; the positions of keys are right afterwards exactly if the replacement keeps them. |
| `CachePositions.KeepsKeysExactly` | ddl/catalog_cache.go:534-554 | A replacement keeps them exactly if it is a foreign key as before or not, and a primary key as before or not unless another comes after it. |
| `CatalogCaches.CatalogCache.GetIndex` | ddl/catalog_cache.go:562-571 | A lookup equals a scan for the last index of the name that is not ignored. |
| `CatalogCaches.CatalogCache.GetOrCreateIndex` | ddl/catalog_cache.go:579-593 | The index's place, or that of a new one at the end. |
| `CatalogCaches.CatalogCache.AddOrUpdateIndex` | ddl/catalog_cache.go:597-607 | The list is the one with the index put in its place or at the end. |
| `CatalogCaches.CatalogCache.GetPrimaryKey` | ddl/catalog_cache.go:773-782 | The last constraint of type primary key, unless it is ignored. |
| `CatalogCaches.CatalogCache.GetForeignKeys` | ddl/catalog_cache.go:785-802 | Exactly the foreign keys that are not ignored, each behind those that come before it in the list. |
| `CatalogCaches.SelectedAreLive` | ddl/catalog_cache.go:785-802 | The noted positions select the foreign keys that a scan finds. |
| `CachePositions.FindByIndex` | ddl/catalog_cache.go:436-445 | A scan for the last object of a name, by its position. |
| `CachePositions.UpsertedFinds` | ddl/catalog_cache.go:471-483 | After an object is added or updated, a lookup finds it under its name, and no other lookup changes. |
| `CachePositions.AllAgreeFrame` | ddl/catalog_cache.go:27-111 | What is learnt about one table leaves the positions of every other table right. |
| `CatalogWriting.WriteCatalog` | ddl/catalog_cache.go:806-917 | A catalog is merged into another through a new cache of it, exactly as specified, if no ignored schema or table with contents is in the way. |
| `CatalogWriting.CopyCatalog` | ddl/catalog_cache.go:806-917 | Written into an empty catalog the source and the target are equal (ddl/catalog_cache_test.go:11-31), and so they are after a second call, from a source with nothing ignored and all constraints named. |
| `CatalogWriting.WriteTables` | ddl/catalog_cache.go:886-914 | The tables of a schema are merged into another in order; other schemas stay as known as they were. |
| `CatalogWriting.WriteTable` | ddl/catalog_cache.go:893-912 | Columns, constraints and indexes are merged into those of a table, and all are found by name; keys too if no constraint changes its type. |
| `CatalogWriting.WriteConstraints` | ddl/catalog_cache.go:897-904 | Each constraint is put in its place or added, one without a name in the place noted for it; keys stay known if none changes its type. |
| `CatalogMerging.CatalogIntoEmpty` | ddl/catalog_cache.go:806-917 | Into an empty catalog, one with different names is copied with all its lists in order, ignored objects too. |
| `CatalogMerging.CatalogIntoItselfExactly` | ddl/catalog_cache.go:806-917 | Merged into itself, a catalog with different names is the same exactly if nothing in it is ignored and all constraints have names. |
| `CatalogMerging.RewritingIsIdempotentExactly` | ddl/catalog_cache.go:453-467 | Writing a list of columns again changes nothing exactly if nothing in it is ignored: an ignored object is added again each time. |
| `CatalogMerging.UnnamedIsAddedAgain` | ddl/catalog_cache.go:508-530 | A constraint without a name, which a new cache does not know of, is added again each time. |
| `CatalogMerging.UnnamedAreLost` | ddl/catalog_cache.go:508-530 | Of two constraints without a name in one table, a copy has only the second. |
| `BatchInserts.BatchSize` | ddl/batch_insert.go:131-160 | 500 unless a positive size is given, at most 25 on SQL Server, and at most what the parameter limit allows. |
| `BatchInserts.SizeFitsExactly` | ddl/batch_insert.go:143-160 | A batch holds a row exactly if the parameters of two rows are within the limit, and its parameters are then within it with a row to spare. |
| `BatchResults.SizeIsLargest` | ddl/batch_insert.go:131-160 | The size is the largest that is at most the size asked for, or 500, at most 25 on SQL Server, and leaves a row to spare within 32766, 65535 or 2100 parameters. |
| `BatchResults.StartsExactly` | ddl/batch_insert.go:131-160 | Statements are run exactly if there are columns, the size is not negative, two rows are within the limit, and an UPDATE for SQL Server has a column to set. |
| `BatchResults.PlaceholdersExactly` | ddl/batch_insert.go:427-450 | On Postgres and SQL Server the placeholder of row i and column j has the number of that value; elsewhere it has none. |
| `BatchInserts.WriteRowValues` | ddl/batch_insert.go:427-450 | A placeholder for every value of every row, numbered from 1 where the dialect numbers them; nothing for a size that is not positive. |
| `BatchInserts.BindReadsRows` | ddl/batch_insert.go:427-450 | A database that binds the arguments to the placeholders reads the rows that were to be inserted. |
| `BatchInserts.OnePlaceholderEach` | ddl/batch_insert.go:427-450 | There are as many placeholders as arguments: rows times columns. |
| `BatchRuns.ExecContext` | ddl/batch_insert.go:130-401 | The outcome, the statements executed and the table left, for any rows and any failing statement; nothing is run without columns, without room for a row, or with a negative size, which panics. |
| `BatchRuns.InsertAll` | ddl/batch_insert.go:317-401 | The loop with its counter and arguments executes full batches as they fill, then what is left over unless the rows broke off. |
| `BatchRuns.ExecBatch` | ddl/batch_insert.go:334-361 | On SQL Server the UPDATE goes before the INSERT; if one fails, nothing after it is executed. |
| `BatchUpserts.StatementsCarryRows` | ddl/batch_insert.go:317-401 | The INSERT statements carry all rows once, in order; if the rows break off, less than a batch is missing. |
| `BatchUpserts.StatementIsRead` | ddl/batch_insert.go:317-401 | Every statement has as many parameters as placeholders, within the limit, and is read as its rows. |
| `BatchUpserts.UpdateThenInsert` | ddl/batch_insert.go:237-260 | For rows with distinct keys, updating the records that are there and inserting those that are missing is to upsert the rows one by one. |
| `BatchUpserts.BatchIsRowByRow` | ddl/batch_insert.go:207-260 | On every dialect a batch of rows with distinct keys comes to the same table as its rows one by one. |
| `BatchUpserts.BatchesAreRowByRow` | ddl/batch_insert.go:317-401 | Whatever the size, a run comes to the table of row-by-row upserts if the keys are distinct within each batch where they have to be. |
| `BatchUpserts.BatchesFailExactly` | ddl/batch_insert.go:210-236 | On other systems than SQL Server a statement is refused exactly if a batch breaks that condition, which only Postgres has. |
| `BatchSqlServer.SqlServerFailsExactly` | ddl/batch_insert.go:237-260 | On SQL Server a statement is refused exactly if a row has the key of an earlier one of its batch, and that key is neither in the table nor in an earlier batch. |
| `BatchUpserts.BatchSizeDoesNotMatter` | ddl/batch_insert.go:317-401 | With distinct keys, any two sizes come to the same table. |
| `BatchUpserts.RunIsRowByRow` | ddl/batch_insert.go:130-401 | The same for the size that is computed: with no statement failing for reasons of its own, the run succeeds. |
| `BatchUpserts.KeysStayUnique` | ddl/batch_insert.go:207-260 | Upserts keep the key unique. |
| `BatchUpserts.RowsAreThere` | ddl/batch_insert.go:317-401 | In the end every row with a key is held by a record with its values. |
| `BatchResults.UpsertExactly` | ddl/batch_insert.go:207-260 | Column by column: records with the key of a row get its values in all columns that are neither key nor, on SQL Server, identity, and keep the rest; other records stay; and if there is none, a record with the row's values and defaults comes last. |
| `BatchResults.InsertsExactly` | ddl/batch_insert.go:198-208 | Without a key, or with one of whose columns is not inserted, all rows come after the records, in order, whatever the size of a batch. |
| `BatchResults.DistinctKeysExactly` | ddl/batch_insert.go:207-236 | Rows have distinct keys if no two have the same values, none of them null, in the key columns. |
| `SqlitePlan.Rename` | ddl/sqlite_migration.go:56-92 | Primary keys, unique constraints and foreign keys get generated names, CHECKs keep theirs. |
| `SqliteNames.NameExactly` | ddl/ddl.go:569-612 | A generated name is the table and all the columns with underscores between them, spaces replaced, as much of it as fits with the suffix into 63 characters, and the suffix of its type. |
| `SqliteNames.SameNameExactly` | ddl/ddl.go:569-612 | Two names are the same exactly if the types are and those texts are, as far as they fit. |
| `SqliteNames.SimpleNamesExactly` | ddl/ddl.go:569-612 | For columns without spaces and underscores, and names that are not cut: exactly if types and columns are the same. |
| `SqliteNames.UnderscoresCollide` | ddl/ddl.go:582-590 | A key on the column a_b has the name of one on a and b. |
| `SqlitePlan.Compare` | ddl/sqlite_migration.go:126-226 | Constraints, indexes and columns that one of the tables does not have, and columns that differ in type, default or nullability. |
| `SqliteNames.ComparedExactly` | ddl/sqlite_migration.go:118-216 | Where names tell the constraints of the two tables apart, one is listed as missing exactly if the other table has none of its type on its columns. |
| `SqliteCopy.PlannedExactly` | ddl/sqlite_migration.go:219-243 | With drops, a table is altered exactly if a constraint or index is on one side only, a column is missing, or one differs; without, exactly if dest has a column or an index that src lacks. |
| `SqlitePlan.CopyTable` | ddl/sqlite_migration.go:259-287 | The flag that the loops set is the copy decision. |
| `SqliteShapes.MustCopyExactly` | ddl/sqlite_migration.go:259-287 | No copy is made exactly if the tables differ only in whole columns with their foreign keys, and in indexes. |
| `SqliteShapes.EditsFrame` | ddl/sqlite_migration.go:319-362 | Statements in place change no column that is in both tables, and no constraint but the foreign keys of columns that come or go. |
| `SqliteAlter.InPlaceReachesExactly` | ddl/sqlite_migration.go:259-362 | The statements in place reach dest exactly if no copy is made, some column stays, the table is empty or columns that come have constant defaults or take nulls, no column that goes has a foreign key declared with the table, unique indexes that come hold, and what is not compared (collation, AUTOINCREMENT) is the same; every row then has its values in the columns that stay and defaults in those that come. |
| `SqliteCopy.CopyReachesExactly` | ddl/sqlite_migration.go:377-437 | A copy is refused exactly if the new name is taken, no column stays, a null would be where none may be, or a key or unique index would have duplicates; otherwise it reaches dest with the same rows and all foreign keys declared with the table, and changes no other table. |
| `SqliteCopy.StatementsReachExactly` | ddl/sqlite_migration.go:259-437 | The statements that are chosen go through exactly if they can, and then they reach dest with the values of the columns that stay, and change no other table. |
| `SqliteCopy.Migrate` | ddl/sqlite_migration.go:126-437 | A table is compared, and the statements written for it do that on every database that has the table. |
| `SqliteCopy.WithoutDropsKeeps` | ddl/sqlite_migration.go:219-243 | Without drops a table is altered in place and loses nothing; that is refused if a column comes that is a key or unique, or for which existing rows have no constant value. |
| `SqliteCopy.WithoutDropsAdds` | ddl/sqlite_migration.go:219-243 | And if it goes through, just the columns and indexes have come that were missing, as dest has them, with their foreign keys and with the defaults in all rows. |
| `SqliteCopy.PathsAgree` | ddl/sqlite_migration.go:259-437 | Where the table is altered in place and that works, a copy comes to the same table, but for where its foreign keys are declared. |
| `SqliteSound.MigrationKeeps` | ddl/sqlite_migration.go:319-437 | Whatever the statements do to a table, in place or by copy, if they go through, a sound database stays sound: every row fits its columns, no null is where none may be, keys and indexes name columns that are there, and no two rows have the same key. |
| `SqliteAlter.ComesFresh` | ddl/dump_cmd.go:1242-1247 | A column that comes without a copy is neither a key nor unique, and its inline REFERENCES makes exactly its foreign key; existing rows need a constant default or a null for it. |
| `SqliteWitnesses.CreatedTablesKeepKeyColumns` | ddl/dump_cmd.go:1042-1059 | A table that the code created has its foreign keys declared with the table: it makes no copy to drop the column of one, and SQLite refuses to drop it in place. |
| `SqliteWitnesses.KeyColumnWitness` | ddl/sqlite_migration.go:259-287 | Two columns, one with a foreign key: the statements fail where a copy would work. |
| `SqliteWitnesses.DefaultWitness` | ddl/sqlite_migration.go:259-287 | A table with a row, and a column with a default in parentheses: the statements fail where a copy would work. |
| `PostgresStages.CompareColumns` | ddl/postgres_migration.go:250-300 | The planner's filters: pairs of columns that differ in what it compares, and of those the ones that lose their nulls, from version 12 on. |
| `PostgresReached.PairsExactly` | ddl/postgres_migration.go:255-303 | Of the columns that both tables have, those are listed, once, that differ in type, default, effective collation, presence of an identity, or NOT NULL unless dest has them in a primary key. |
| `PostgresReached.ComparedReaches` | ddl/postgres_migration.go:255-661 | A table that is as src describes it, changed by what the planner lists, has every column of dest that both have as dest describes it, but for a default that stays and what a primary key makes NOT NULL. |
| `PostgresReached.DefaultReachedExactly` | ddl/postgres_migration.go:578-592 | A default becomes that of dest exactly if it is not one of two different defaults that are not both literals. |
| `PostgresReached.EachChangeMatters` | ddl/postgres_migration.go:549-621 | No change to a column is written that would leave it as it is. |
| `PostgresReached.MigrationReaches` | ddl/postgres_migration.go:444-793 | If the statements go through, in stages or directly, all columns, indexes, keys and foreign keys are what was asked for: types, collations, nullability and identities of dest, and keys that are valid. |
| `PostgresSound.ExecuteKeeps` | ddl/postgres_migration.go:444-793 | Whatever statements go through, in stages or directly, from a sound database: NOT NULL columns have no nulls, keys and unique indexes tell rows apart, no table has two primary keys, and rows have the parents that valid foreign keys ask for. |
| `PostgresColumns.AddedAreValidated` | ddl/postgres_migration.go:295-608 | The writer's filter adds a check for exactly the columns that the planner's filter lists for validation; before version 12 there are none. |
| `PostgresColumns.ChecksAreAdded` | ddl/postgres_migration.go:510-621 | The checks are added along the way through the columns, exactly if their names are free and the columns are there. |
| `PostgresColumns.ChecksAreValidated` | ddl/postgres_migration.go:643-661 | VALIDATE, SET NOT NULL and DROP CONSTRAINT leave the columns NOT NULL and no check, exactly if there are no nulls. |
| `PostgresColumns.IdentityIsRefused` | ddl/postgres_migration.go:593-621 | A column that is to lose its nulls later cannot become an identity column before. |
| `PostgresColumns.ColumnsInStages` | ddl/postgres_migration.go:510-661 | The stages of the columns come to the direct changes if the names of the checks are free and no column gains an identity as it loses its nulls, and are refused if not; before version 12 they are the direct changes. |
| `PostgresRefinement.KeyThroughIndex` | ddl/postgres_migration.go:686-721 | A unique index that a key takes over comes to adding the key as one that is not deferrable, whatever the table. |
| `PostgresRefinement.KeysInStagesExactly` | ddl/postgres_migration.go:686-721 | Keys added through indexes go through exactly where the direct ones do, and are the same exactly if none is deferrable: the statement has no such clause, the definition does (ddl/dump_cmd.go:1347-1353). |
| `PostgresRefinement.TableInStagesExactly` | ddl/postgres_migration.go:510-721 | The stages of a table go through exactly if the direct changes do and its columns fit; the table is the same exactly if no key is deferrable. |
| `PostgresRefinement.AltersInStagesExactly` | ddl/postgres_migration.go:444-721 | The same over all tables of a migration. |
| `PostgresStages.GroupForeignKeys` | ddl/postgres_migration.go:325-336 | The position map groups foreign keys by their pair of tables. |
| `PostgresStaged.GroupsConserve` | ddl/postgres_migration.go:325-336 | Every foreign key is in the groups as often as it was given. |
| `PostgresStaged.GroupsAreTidy` | ddl/postgres_migration.go:325-336 | The members of a group have one pair of tables, and no two groups have the same. |
| `PostgresStaged.SamePairExactly` | ddl/postgres_migration.go:68-83 | Two foreign keys are taken for a pair exactly if their tables are the same in the same order, or in reverse and do not cross by schema and name. |
| `PostgresStaged.OneWayExactly` | ddl/postgres_migration.go:68-83 | What that means for a caller: foreign keys that go to and fro share a group unless their tables cross. |
| `PostgresStaged.GroupsOfOneTableExactly` | ddl/postgres_migration.go:325-336 | All groups are of one table exactly if no two foreign keys in a group go to and fro. |
| `PostgresGroups.GroupAgrees` | ddl/postgres_migration.go:753-793 | NOT VALID and VALIDATE for a group of one table come to adding its foreign keys one by one, in success and in failure. |
| `PostgresGroups.GroupAgreesExactly` | ddl/postgres_migration.go:753-793 | If the foreign keys of a group can be added one by one, the stages come to the same exactly if all are of one table, since the statements name the table of the first. |
| `PostgresStaged.StagesAgreeExactly` | ddl/postgres_migration.go:444-793 | A whole migration in stages comes to the direct changes if its columns fit, and is refused if not; for keys that are not deferrable and foreign keys that do not go to and fro. |
| `PostgresStaged.StagesLeaveNothing` | ddl/postgres_migration.go:444-793 | After stages that go through, what is new are keys, valid foreign keys and the indexes asked for: no check, no foreign key that is not valid, no index of a key by itself. |
| `PostgresSql.WriteColumns` | ddl/postgres_migration.go:510-661 | The statements of the columns of a table, with their effect on every table that they were planned for; if they go through, each listed column has the type, effective collation, nullability and identity of dest, and its default unless that stays. |
| `PostgresSql.WriteKeys` | ddl/postgres_migration.go:663-721 | The indexes, and the keys through indexes: on every table, those keys, none of them deferrable. |
| `PostgresSql.WriteGroup` | ddl/postgres_migration.go:753-793 | The statements of a group: on every database those of its foreign keys one by one, if all are of one table. |
| `PostgresSql.Sql` | ddl/postgres_migration.go:444-793 | The statements that are written come to the direct changes on every database that they were planned for, and reach what they are for if they go through. |
| `PostgresNames.CheckNameExactly` | ddl/postgres_migration.go:606-608 | The name of a check is the longest text of whole characters within 63 bytes of UTF-8 that the table, the column and the suffix begin with. |
| `PostgresNames.ShortNamesDiffer` | ddl/postgres_migration.go:606-608 | Where nothing is cut, different columns have different checks. |
| `PostgresNames.NamesFreeExactly` | ddl/postgres_migration.go:606-661 | The condition of the stages, on the texts: no check has the name of a constraint, and no two columns come to one name. |
| `PostgresWitnesses.LongNamesCollide` | ddl/postgres_migration.go:606-608 | In a table with a name of 62 bytes or more, all columns share the name of a check, which is cut at 63 bytes. |
| `PostgresWitnesses.LongTableRefused` | ddl/postgres_migration.go:606-608 | Two columns of such a table lose their nulls directly, but not in stages. |
| `PostgresWitnesses.LongTableWitness` | ddl/postgres_migration.go:606-608 | Such as a table of 31 letters that take two bytes each. |
| `PostgresWitnesses.DeferrableKeyWitness` | ddl/postgres_migration.go:720-720 | A deferrable key comes out as one that is not. |
| `PostgresWitnesses.IdentityWitness` | ddl/postgres_migration.go:593-621 | A column that loses its nulls and becomes an identity column does so directly, but not in stages. |
| `PostgresWitnesses.ToAndFroWitness` | ddl/postgres_migration.go:325-336 | Two tables that refer to each other: one by one the foreign keys can be added, in stages they come to something else. |
| `PostgresWitnesses.FailedValidationLeavesChecks` | ddl/postgres_migration.go:643-661 | If a column has nulls, its validation fails and the checks of the first file stay. |
| `PostgresWitnesses.FailedKeyLeavesIndex` | ddl/postgres_migration.go:686-721 | If a key cannot take over its index, the index stays. |
| `PostgresWitnesses.FilesRunExactly` | ddl/postgres_migration.go:444-793 | The files of a table all go through exactly if its stages do, and come to the same. |

## Left out

Subsetter:

- The `{*}` and `{table}` placeholders and running the query: the table and the primary keys that were returned are inputs.
- Formatting of values by type, the temporary-table variant, ORDER BY and generated columns in dump queries. An empty result is an empty set here; the code writes an empty VALUES list.
- The code sorts the tables of the first phase by name; the theorems hold for any order.
- SubsetIntegrity.ExtendedSubsetIntactExactly: assumes that every table reached has a primary key, since the tables of the first phase without one are a second way to miss rows.
- SubsetIntegrity.SubsetIntactExactly: for catalogs in which no column of one foreign key belongs to another key of its table, so that a database can be built for every missed chain; SubsetIsIntact, the other direction, holds for all catalogs.

Migrations:

- Identifier quoting, SQL text, file names, undo files and warnings; generated columns; tables and indexes that carry their own SQL.
- MySqlServerCorrect.MigrationReachesExactly: nothing in the catalogs is ignored, since CREATE TABLE would be followed even by ignored indexes; same-named constraints and indexes agree; CHECKs of existing tables are neither dropped nor added by the code.
- MySqlDatabase stores no identity: MySQL writes no such clause, and the planner compares only whether there is one.
- MySqlDatabase.Supports: a referenced key has exactly the columns that are referenced. MySqlServer.Tidied: of two generated indexes on the same columns, which come about only when a column is dropped, both stay. An index that was generated counts as any other once it shows in a catalog; whether it shows is decided by the constraints of its own table, while introspection looks at the constraints of all tables.
- SqliteAlter.InPlaceReachesExactly: nothing ignored or generated, same-named constraints and indexes agree, and column definitions tell of keys and references what the constraints tell, as the introspector sets them. The value of a default is represented by its text.
- SqliteCopy.CopyReachesExactly: does not model foreign keys violated by rows, which SQLite enforces only if it is told to (PRAGMA foreign_keys), nor ADD COLUMN with REFERENCES and a default under that setting, nor triggers, nor virtual tables; index names are checked within their table. Which SQLite tables are created and dropped is decided as for MySQL.
- SqliteTables.GenerateName: a character stands for a byte, as the length is counted in bytes.
- PostgresStaged.StagesAgreeExactly: is about databases that nobody else writes to between the stages, and about changes that fit the tables as they are when the columns come up; the drops and new columns before them in the file are the same either way. ALTER CONSTRAINT, extensions, enums, domains, views and routines are not modelled, nor the parts of the planner that repeat MySQL's.
- PostgresGroups.GroupAgreesExactly: is per group; that a whole migration differs as soon as one of its groups does is not stated, since later groups could add constraints of the same name.
- PostgresSql.Sql: starts from changes that are planned; that CompareColumns plans them, and what they then reach, is PostgresReached.ComparedReaches. Index names are checked within their table, and CREATE INDEX CONCURRENTLY leaves no invalid index when it fails.
- PostgresTables: a collation is a name, the default one is called default; SET DEFAULT and SET TYPE are not checked against the rows; a name given in the catalog is not longer than 63 bytes.
- MySqlPlan.ColumnsDiffer: column types and defaults are texts in normalized form, here and for the other dialects; the normalization (`ddl/ddl.go`) is not part of this model, nor is isLiteral.
- SQL Server migrations: the diff repeats MySQL's, and the blocks for column dependencies may drop and create a key twice.

Runner:

- The flags of `ls`, which shows pending and failed scripts by default, and the files that are missing.
- Introducing the history table, session values for lock timeouts, delays, logging and annotated errors; SHA-256 is a function that is given.
- A COMMIT that fails is taken to have committed nothing; the failure rows are written as one step.
- RunnerHistory.MigrateIsOnceOnly: a history write that fails for a script outside a transaction is excluded, and UnrecordedRunsAgain shows why.
- MigrateCommand.MigrateCmd.RecordFailure: a BEGIN that runs into a lock timeout, at any attempt, indexes the queue at -1 (`ddl/migrate_cmd.go:390-400`); the run then ends as a crash, in the code and here.

Arrays, modifiers:

- Integer, floating-point and generic arrays, and time formats. Byte strings that are nil and those that are empty are not told apart; error texts are left out.
- Modifiers.ReadModifier: the round trips are about modifiers with plain names, balanced values, and no value without a space that starts with a brace. A character stands for a byte.

Catalog cache:

- Enums, domains, routines, views and triggers, whose maps are handled by the same code; AddOrUpdateSchema.
- CatalogCaches.CatalogCache.constructor: two tables of one schema with the same name are indexed as in the code, one over the other, but known only where TableKnownExactly says so.
- CatalogCaches.CatalogCache.GetOrCreateTable: the tables of a schema are values, as in the code, and the columns of a table are changed through an object that holds its lists. A lookup in a table that was made over an ignored one with contents, which may also find the wrong place instead of panicking, is excluded by the contracts of the lookups; AllKnownExactly says when there is none.
- CatalogWriting.WriteCatalog: schemas have different names, and so have the tables of each, in the source and in the target; no ignored schema or table with contents is in the way. IsVirtual is not part of the model; the code does not copy it.

Batch insert:

- The SQL text, SET IDENTITY_INSERT and the resetting of sequences, and counts of affected rows.
- BatchInserts.InsertRows: the key columns are the only unique key. An UPDATE on SQL Server that finds several rows for a record may take any; here it takes the last, which the theorems, for distinct keys, do not depend on.

Also left out: drivers, flags, file systems, archives, CSV files, introspection queries, and code generation.
