/** What MySQL itself keeps, whatever statements are run: constraints and indexes name columns that are there, no table
    has two primary keys, and every foreign key refers to a key. */
module MySqlSound {
  import opened Common
  import opened Catalogs
  import opened MySqlDatabase
  import opened MySqlPlan
  import opened MySqlSql

  predicate Named(columns: map<string, ColumnDef>, names: seq<string>) {
    forall c :: c in names ==> c in columns
  }

  predicate IsPrimary(ts: TableState, n: string) {
    n in ts.constraints && ts.constraints[n].constraintType == PrimaryKey
  }

  ghost predicate TableSound(ts: TableState) {
    && (forall n :: n in ts.constraints ==> Named(ts.columns, ts.constraints[n].columns))
    && (forall n :: n in ts.indexes ==> Named(ts.columns, ts.indexes[n].columns))
    && (forall n, k :: IsPrimary(ts, n) && IsPrimary(ts, k) ==> n == k)
  }

  /** The columns are there, and a primary key, unique constraint or unique index is on just those. */
  ghost predicate Keyed(ts: TableState, columns: seq<string>) {
    && Named(ts.columns, columns)
    && ((exists n :: n in ts.constraints && ts.constraints[n].columns == columns
           && (ts.constraints[n].constraintType == PrimaryKey || ts.constraints[n].constraintType == Unique))
        || (exists n :: n in ts.indexes && ts.indexes[n].isUnique && ts.indexes[n].columns == columns))
  }

  predicate IsFkey(db: Database, t: TableID, n: string) {
    t in db.tables && n in db.tables[t].constraints && db.tables[t].constraints[n].constraintType == ForeignKey
  }

  ghost predicate RefersToKey(db: Database, c: ConstraintDef) {
    c.references in db.tables && Keyed(db.tables[c.references], c.referencesColumns)
  }

  ghost predicate Sound(db: Database) {
    && (forall t :: t in db.tables ==> TableSound(db.tables[t]))
    && (forall t, n :: IsFkey(db, t, n) ==> RefersToKey(db, db.tables[t].constraints[n]))
  }

  lemma KeyedExactly(ts: TableState, columns: seq<string>)
    ensures Supports(ts, columns) <==> Keyed(ts, columns)
  {
  }

  // ----- one table -----

  lemma ClauseKeeps(clause: MySqlDatabase.Clause, ts: TableState)
    requires TableSound(ts) && MySqlDatabase.Apply(clause, ts).Some?
    ensures var after := MySqlDatabase.Apply(clause, ts).value;
      TableSound(after) && SameFkeys(ts, after)
  {
    var after := MySqlDatabase.Apply(clause, ts).value;
    match clause
    case DropConstraint(n) => assert forall k :: IsPrimary(after, k) ==> IsPrimary(ts, k);
    case AddConstraint(c) =>
      assert forall k :: IsPrimary(after, k) ==> IsPrimary(ts, k) || k == c.name;
      assert c.def.constraintType == PrimaryKey ==> forall k :: !IsPrimary(ts, k) by {
        assert forall k :: IsPrimary(ts, k) ==> IsPrimaryKey(ts, k);
      }
    case _ => assert forall k :: IsPrimary(after, k) ==> IsPrimary(ts, k);
  }

  /** Foreign keys are neither added nor dropped, nor changed. */
  ghost predicate SameFkeys(a: TableState, b: TableState) {
    forall n :: (n in a.constraints && a.constraints[n].constraintType == ForeignKey)
                || (n in b.constraints && b.constraints[n].constraintType == ForeignKey) ==>
      n in a.constraints && n in b.constraints && a.constraints[n] == b.constraints[n]
  }

  lemma {:induction false} ClausesKeep(clauses: seq<MySqlDatabase.Clause>, ts: TableState)
    requires TableSound(ts) && ApplyAll(clauses, ts).Some?
    ensures TableSound(ApplyAll(clauses, ts).value) && SameFkeys(ts, ApplyAll(clauses, ts).value)
  {
    if clauses == [] {
    } else {
      ClausesKeep(clauses[..|clauses| - 1], ts);
      ClauseKeeps(clauses[|clauses| - 1], ApplyAll(clauses[..|clauses| - 1], ts).value);
    }
  }

  // ----- the database -----

  /** A table is changed, so that foreign keys to it still have their keys. */
  lemma TableChanges(db: Database, t: TableID, ts: TableState)
    requires Sound(db) && t in db.tables && TableSound(ts) && SameFkeys(db.tables[t], ts)
    requires forall u, n :: IsFkey(db, u, n) && db.tables[u].constraints[n].references == t ==>
               Keyed(ts, db.tables[u].constraints[n].referencesColumns)
    ensures Sound(db.(tables := db.tables[t := ts]))
  {
    var after := db.(tables := db.tables[t := ts]);
    forall u, n | IsFkey(after, u, n) ensures RefersToKey(after, after.tables[u].constraints[n]) {
      assert IsFkey(db, u, n) && after.tables[u].constraints[n] == db.tables[u].constraints[n];
      assert RefersToKey(db, db.tables[u].constraints[n]);
    }
  }

  lemma IndexKeeps(ts: TableState, index: Index, columns: seq<string>)
    requires MySqlDatabase.Apply(AddIndex(index), ts).Some? && Keyed(ts, columns)
    ensures Keyed(MySqlDatabase.Apply(AddIndex(index), ts).value, columns)
  {
    var after := MySqlDatabase.Apply(AddIndex(index), ts).value;
    if n :| n in ts.indexes && ts.indexes[n].isUnique && ts.indexes[n].columns == columns {
      assert n in after.indexes && after.indexes[n] == ts.indexes[n];
    }
  }

  lemma AlterKeeps(db: Database, t: TableID, clauses: seq<MySqlDatabase.Clause>)
    requires Sound(db) && Execute(MySqlDatabase.AlterTable(t, clauses), db).Some?
    ensures Sound(Execute(MySqlDatabase.AlterTable(t, clauses), db).value)
  {
    ClausesKeep(clauses, db.tables[t]);
    var ts := ApplyAll(clauses, db.tables[t]).value;
    var next := db.(tables := db.tables[t := ts]);
    forall u, n | IsFkey(db, u, n) && db.tables[u].constraints[n].references == t
      ensures Keyed(ts, db.tables[u].constraints[n].referencesColumns)
    {
      assert References(next, u, n, t);
      KeyedExactly(ts, db.tables[u].constraints[n].referencesColumns);
    }
    TableChanges(db, t, ts);
  }

  lemma IndexedKeeps(db: Database, t: TableID, index: Index)
    requires Sound(db) && Execute(CreateIndex(t, index), db).Some?
    ensures Sound(Execute(CreateIndex(t, index), db).value)
  {
    var ts := MySqlDatabase.Apply(AddIndex(index), db.tables[t]).value;
    ClauseKeeps(AddIndex(index), db.tables[t]);
    forall u, n | IsFkey(db, u, n) && db.tables[u].constraints[n].references == t
      ensures Keyed(ts, db.tables[u].constraints[n].referencesColumns)
    {
      assert RefersToKey(db, db.tables[u].constraints[n]);
      IndexKeeps(db.tables[t], index, db.tables[u].constraints[n].referencesColumns);
    }
    TableChanges(db, t, ts);
  }

  /** Fewer tables, without any that foreign keys of the others refer to. */
  lemma FewerTables(db: Database, after: Database)
    requires Sound(db) && (forall t :: t in after.tables ==> t in db.tables && after.tables[t] == db.tables[t])
    requires forall t, n :: IsFkey(after, t, n) ==> after.tables[t].constraints[n].references in after.tables
    ensures Sound(after)
  {
    forall t, n | IsFkey(after, t, n) ensures RefersToKey(after, after.tables[t].constraints[n]) {
      assert IsFkey(db, t, n) && RefersToKey(db, db.tables[t].constraints[n]);
    }
  }

  lemma DropsKeep(db: Database, s: MySqlDatabase.Statement)
    requires Sound(db) && (s.DropSchemaIfExists? || s.DropTableIfExists?) && Execute(s, db).Some?
    ensures Sound(Execute(s, db).value)
  {
    var after := Execute(s, db).value;
    forall t, n | IsFkey(after, t, n) ensures after.tables[t].constraints[n].references in after.tables {
      var u := db.tables[t].constraints[n].references;
      assert IsFkey(db, t, n) && RefersToKey(db, db.tables[t].constraints[n]);
      assert References(db, t, n, u);
    }
    FewerTables(db, after);
  }

  lemma CreateKeeps(db: Database, t: TableID, columns: seq<Column>, constraints: seq<Constraint>)
    requires Sound(db) && Execute(CreateTable(t, columns, constraints), db).Some?
    requires forall n :: n in Live(constraints) ==> Live(constraints)[n].constraintType != ForeignKey
    ensures Sound(Execute(CreateTable(t, columns, constraints), db).value)
  {
    var ts, after := NewState(columns, constraints), Execute(CreateTable(t, columns, constraints), db).value;
    assert forall n :: IsPrimary(ts, n) ==> IsPrimaryKey(ts, n);
    forall u, n | IsFkey(after, u, n) ensures RefersToKey(after, after.tables[u].constraints[n]) {
      assert IsFkey(db, u, n) && RefersToKey(db, db.tables[u].constraints[n]);
    }
  }

  lemma DropFkeyKeeps(db: Database, t: TableID, n: string)
    requires Sound(db) && Execute(DropForeignKey(t, n), db).Some?
    ensures Sound(Execute(DropForeignKey(t, n), db).value)
  {
    var ts := db.tables[t];
    var less, after := ts.(constraints := ts.constraints - {n}), Execute(DropForeignKey(t, n), db).value;
    assert forall k :: IsPrimary(less, k) ==> IsPrimary(ts, k);
    forall u, k | IsFkey(after, u, k) ensures RefersToKey(after, after.tables[u].constraints[k]) {
      assert IsFkey(db, u, k) && RefersToKey(db, db.tables[u].constraints[k]);
      var columns := db.tables[u].constraints[k].referencesColumns;
      LessKeeps(ts, n, columns);
    }
  }

  lemma LessKeeps(ts: TableState, n: string, columns: seq<string>)
    requires n in ts.constraints && ts.constraints[n].constraintType == ForeignKey
    ensures Keyed(ts, columns) ==> Keyed(ts.(constraints := ts.constraints - {n}), columns)
  {
    if k :| k in ts.constraints && ts.constraints[k].columns == columns
            && (ts.constraints[k].constraintType == PrimaryKey || ts.constraints[k].constraintType == Unique) {
      assert k != n && k in ts.constraints - {n};
    }
  }

  lemma MoreKeeps(ts: TableState, n: string, c: ConstraintDef, columns: seq<string>)
    requires n !in ts.constraints
    ensures Keyed(ts, columns) ==> Keyed(ts.(constraints := ts.constraints[n := c]), columns)
  {
    if k :| k in ts.constraints && ts.constraints[k].columns == columns
            && (ts.constraints[k].constraintType == PrimaryKey || ts.constraints[k].constraintType == Unique) {
      assert k != n && k in ts.constraints[n := c];
    }
  }

  lemma AddFkeyKeeps(db: Database, t: TableID, c: Constraint)
    requires Sound(db) && Execute(AddForeignKey(t, c), db).Some?
    ensures Sound(Execute(AddForeignKey(t, c), db).value)
  {
    var ts := db.tables[t];
    var more, after := ts.(constraints := ts.constraints[c.name := c.def]), Execute(AddForeignKey(t, c), db).value;
    assert forall k :: IsPrimary(more, k) ==> IsPrimary(ts, k);
    forall u, k | IsFkey(after, u, k) ensures RefersToKey(after, after.tables[u].constraints[k]) {
      var def := after.tables[u].constraints[k];
      KeyedExactly(db.tables[def.references], def.referencesColumns);
      assert u != t || k != c.name ==> IsFkey(db, u, k) && RefersToKey(db, def);
      MoreKeeps(ts, c.name, c.def, def.referencesColumns);
    }
  }

  // ----- statements -----

  /** CREATE TABLE states no foreign keys. */
  ghost predicate StatesNoFkeys(s: MySqlDatabase.Statement) {
    s.CreateTable? ==>
      forall n :: n in Live(s.constraints) ==> Live(s.constraints)[n].constraintType != ForeignKey
  }

  lemma StatementKeeps(s: MySqlDatabase.Statement, db: Database)
    requires Sound(db) && StatesNoFkeys(s) && Execute(s, db).Some?
    ensures Sound(Execute(s, db).value)
  {
    match s
    case DropForeignKey(t, n) => DropFkeyKeeps(db, t, n);
    case DropSchemaIfExists(_) => DropsKeep(db, s);
    case CreateSchemaIfNotExists(_) =>
      var after := Execute(s, db).value;
      FewerTables(db, after) by {
        assert forall t, n :: IsFkey(after, t, n) ==> IsFkey(db, t, n) && RefersToKey(db, db.tables[t].constraints[n]);
      }
    case DropTableIfExists(_) => DropsKeep(db, s);
    case CreateTable(t, columns, constraints) => CreateKeeps(db, t, columns, constraints);
    case CreateIndex(t, index) => IndexedKeeps(db, t, index);
    case AlterTable(t, clauses) => AlterKeeps(db, t, clauses);
    case AddForeignKey(t, c) => AddFkeyKeeps(db, t, c);
  }

  lemma {:induction false} ExecuteKeeps(ss: seq<MySqlDatabase.Statement>, db: Database)
    requires Sound(db) && (forall s :: s in ss ==> StatesNoFkeys(s)) && ExecuteAll(ss, db).Some?
    ensures Sound(ExecuteAll(ss, db).value)
  {
    if ss == [] {
    } else {
      var init, last := ss[..|ss| - 1], ss[|ss| - 1];
      assert ss == init + [last];
      ExecuteKeeps(init, db);
      StatementKeeps(last, ExecuteAll(init, db).value);
    }
  }

  // ----- a migration -----

  ghost predicate AllState(ss: seq<MySqlDatabase.Statement>) {
    forall s :: s in ss ==> StatesNoFkeys(s)
  }

  lemma DropsState(fkeys: seq<TableKey>, schemas: seq<string>, tables: seq<TableID>)
    ensures AllState(FkeyDropsOf(fkeys)) && AllState(SchemaDropsOf(schemas)) && AllState(TableDropsOf(tables))
    decreases |fkeys| + |schemas| + |tables|
  {
    if fkeys != [] {
      DropsState(fkeys[..|fkeys| - 1], schemas, tables);
    } else if schemas != [] {
      DropsState(fkeys, schemas[..|schemas| - 1], tables);
    } else if tables != [] {
      DropsState(fkeys, schemas, tables[..|tables| - 1]);
    }
  }

  lemma AddsState(schemas: seq<string>, alters: seq<MySqlPlan.AlterTable>, fkeys: seq<TableKey>)
    ensures AllState(SchemaCreationsOf(schemas)) && AllState(AlterationsOf(alters)) && AllState(FkeyAddsOf(fkeys))
    decreases |schemas| + |alters| + |fkeys|
  {
    if schemas != [] {
      AddsState(schemas[..|schemas| - 1], alters, fkeys);
    } else if alters != [] {
      AddsState(schemas, alters[..|alters| - 1], fkeys);
    } else if fkeys != [] {
      AddsState(schemas, alters, fkeys[..|fkeys| - 1]);
    }
  }

  lemma {:induction false} NoFkeyIsLive(cs: seq<Constraint>, n: string)
    requires n in Live(NotFkeys(cs))
    ensures Live(NotFkeys(cs))[n].constraintType != ForeignKey
  {
    if cs == [] {
    } else {
      var init, last := NotFkeys(cs[..|cs| - 1]), cs[|cs| - 1];
      if last.ignore || last.def.constraintType == ForeignKey {
        assert NotFkeys(cs) == init;
        NoFkeyIsLive(cs[..|cs| - 1], n);
      } else {
        assert NotFkeys(cs)[..|init|] == init;
        if n != last.name {
          NoFkeyIsLive(cs[..|cs| - 1], n);
        }
      }
    }
  }

  lemma {:induction false} IndexesState(id: TableID, indexes: seq<Index>)
    ensures AllState(IndexCreationsOf(id, indexes))
  {
    if indexes == [] {
    } else {
      IndexesState(id, indexes[..|indexes| - 1]);
    }
  }

  lemma {:induction false} CreationsState(tables: seq<NewTable>)
    ensures AllState(TableCreationsOf(tables))
  {
    if tables == [] {
    } else {
      var t := tables[|tables| - 1];
      CreationsState(tables[..|tables| - 1]);
      IndexesState(t.id, t.table.def.indexes);
      forall n | n in Live(NotFkeys(t.table.def.constraints))
        ensures Live(NotFkeys(t.table.def.constraints))[n].constraintType != ForeignKey
      {
        NoFkeyIsLive(t.table.def.constraints, n);
      }
    }
  }

  /** Whatever two catalogs a migration is planned from, with drops or without, the database stays sound, wherever it
      stops. */
  lemma MigrationKeeps(src: Catalog, dest: Catalog, dropObjects: bool, ss: seq<MySqlDatabase.Statement>, db: Database)
    requires ss <= Statements(Plan(src, dest, dropObjects))
    requires Sound(db) && ExecuteAll(ss, db).Some?
    ensures Sound(ExecuteAll(ss, db).value)
  {
    StatementsState(Plan(src, dest, dropObjects));
    forall s | s in ss ensures StatesNoFkeys(s) {
      assert s in Statements(Plan(src, dest, dropObjects));
    }
    ExecuteKeeps(ss, db);
  }

  lemma StatementsState(m: Migration)
    ensures AllState(Statements(m))
  {
    DropsState(m.dropFkeys, m.dropSchemas, m.dropTables);
    AddsState(m.createSchemas, m.alterTables, m.addFkeys);
    CreationsState(m.createTables);
  }
}
