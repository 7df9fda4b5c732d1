/** Running a whole MySQL plan that may drop objects: no statement is refused, and the
    database ends up as dest describes it. */
module MySqlCorrect {
  import opened Common
  import opened Catalogs
  import opened MySqlDatabase
  import opened MySqlPlan
  import opened MySqlSql
  import opened MySqlAlter
  import opened MySqlPhases
  import opened MySqlPlanItems

  // ----- catalogs as databases -----

  function TableIDs(schema: string, ts: seq<Table>): set<TableID> {
    if ts == [] then {} else TableIDs(schema, ts[..|ts| - 1]) + {TableID(schema, ts[|ts| - 1].name)}
  }

  function AllTableIDs(schemas: seq<Schema>): set<TableID> {
    if schemas == [] then {}
    else AllTableIDs(schemas[..|schemas| - 1]) + TableIDs(schemas[|schemas| - 1].name, schemas[|schemas| - 1].def)
  }

  lemma {:induction false} TableIDsMember(schema: string, ts: seq<Table>, i: nat)
    requires i < |ts|
    ensures TableID(schema, ts[i].name) in TableIDs(schema, ts)
  {
    if i == |ts| - 1 {
    } else {
      TableIDsMember(schema, ts[..|ts| - 1], i);
    }
  }

  lemma {:induction false} AllTableIDsMember(schemas: seq<Schema>, i: nat, k: nat)
    requires i < |schemas| && k < |schemas[i].def|
    ensures TableID(schemas[i].name, schemas[i].def[k].name) in AllTableIDs(schemas)
  {
    if i == |schemas| - 1 {
      TableIDsMember(schemas[i].name, schemas[i].def, k);
    } else {
      AllTableIDsMember(schemas[..|schemas| - 1], i, k);
    }
  }

  /** The database a catalog describes. The unnamed schema is the current one. */
  function Load(c: Catalog): Database {
    Database(Names(c.schemas) + {""}, map id | id in AllTableIDs(c.schemas)
        && ObjectAt(c, id).Some? :: StateOf(ObjectAt(c, id).value.def))
  }

  lemma LoadAt(c: Catalog, id: TableID)
    requires PlainCatalog(c)
    ensures id in Load(c).tables <==> ObjectAt(c, id).Some?
    ensures id in Load(c).tables ==> Load(c).tables[id] == StateOf(ObjectAt(c, id).value.def)
    ensures ObjectAt(c, id).Some? ==> Find(c.schemas, id.schema).Some?
  {
    FindAt(c.schemas, id.schema);
    if ObjectAt(c, id).Some? {
      var s := Find(c.schemas, id.schema).value;
      var i: nat :| i < |c.schemas| && c.schemas[i] == s;
      FindAt(s.def, id.name);
      var k: nat :| k < |s.def| && s.def[k] == ObjectAt(c, id).value;
      AllTableIDsMember(c.schemas, i, k);
    }
  }

  /** Every foreign key has the key it references. */
  ghost predicate FkeysHold(db: Database) {
    forall t, n {:trigger IsFkeyAt(db, t, n)} :: IsFkeyAt(db, t, n) ==> FkeyHolds(db, db.tables[t].constraints[n])
  }

  predicate IsFkeyAt(db: Database, t: TableID, n: string) {
    t in db.tables && n in db.tables[t].constraints && db.tables[t].constraints[n].constraintType == ForeignKey
  }

  predicate FkeyHolds(db: Database, c: ConstraintDef) {
    c.references in db.tables && Supports(db.tables[c.references], c.referencesColumns)
  }

  /** A catalog of a real database, with nothing ignored. */
  ghost predicate Consistent(c: Catalog) {
    && PlainCatalog(c)
    && (forall id {:trigger ObjectAt(c, id)} :: ObjectAt(c, id).Some? ==> TableOk(ObjectAt(c, id).value.def))
    && FkeysHold(Load(c))
  }

  /** Objects of the same name are the same (columns and primary keys aside), and src has no
      unnamed schema that dest lacks. */
  ghost predicate Agree(src: Catalog, dest: Catalog) {
    && (forall id {:trigger ObjectAt(src, id)} {:trigger ObjectAt(dest, id)} ::
       ObjectAt(src, id).Some? && ObjectAt(dest, id).Some? ==>
          AgreeTable(StateOf(ObjectAt(src, id).value.def), StateOf(ObjectAt(dest, id).value.def)))
    && (Find(src.schemas, "").Some? ==> Find(dest.schemas, "").Some?)
  }

  // ----- what the plan is for -----

  /** The ALTER TABLE does nothing but drop columns, so that the planner leaves it out. */
  ghost predicate OnlyDropsColumns(collation: string, src: Option<Table>, dest: TableDef) {
    src.Some?
    && var a := Alter(TableID("", ""), collation, src.value.def, dest, true);
       !Keeps(a) && a.dropColumns != []
  }

  /** The constraints dest has, but with the CHECKs of the table that src has. */
  function FinalConstraints(src: Option<Table>, dest: TableDef): map<string, ConstraintDef> {
    if src.None? then Live(dest.constraints) else WithChecks(Live(src.value.def.constraints), Live(dest.constraints))
  }

  function WithChecks(src: map<string, ConstraintDef>, dest: map<string, ConstraintDef>): map<string, ConstraintDef> {
    map n | n in src.Keys + dest.Keys
            && ((n in src && src[n].constraintType == Check) || (n in dest && dest[n].constraintType != Check)) ::
      if n in dest then dest[n] else src[n]
  }

  ghost predicate TableReached(collation: string, src: Option<Table>, dest: TableDef, ts: TableState) {
    && ts.indexes == Live(dest.indexes)
    && ts.constraints == FinalConstraints(src, dest)
    && ColumnsIncluded(collation, ts.columns, Live(dest.columns))
    && (ts.columns.Keys == Live(dest.columns).Keys <==> !OnlyDropsColumns(collation, src, dest))
  }

  ghost predicate ColumnsIncluded(collation: string, has: map<string, ColumnDef>, dest: map<string, ColumnDef>) {
    forall n :: n in dest ==> n in has && SameColumn(collation, has[n], dest[n])
  }

  ghost predicate Reached(src: Catalog, dest: Catalog, db: Database) {
    && db.schemas == Names(dest.schemas) + {""}
    && (forall id {:trigger id in db.tables} :: id in db.tables <==> ObjectAt(dest, id).Some?)
    && (forall id {:trigger db.tables[id]} :: id in db.tables && ObjectAt(dest, id).Some? ==>
          TableReached(src.defaultCollation, ObjectAt(src, id), ObjectAt(dest, id).value.def, db.tables[id]))
  }

  // ----- a table before its foreign keys are added -----

  /** The table of db that dest has under id, when all but the last phase is done. */
  function BeforeFkeys(collation: string, id: TableID, src: Option<Table>, dest: TableDef): TableState {
    if src.None? then CreatedState(dest)
    else
      var a, ts := Alter(id, collation, src.value.def, dest, true), Unlinked(StateOf(src.value.def), StateOf(dest));
      if Keeps(a) then AfterAlter(ts, a) else ts
  }

  /** The table has what dest has, but perhaps not its foreign keys. */
  ghost predicate Covers(ts: TableState, dest: TableState) {
    && dest.columns.Keys <= ts.columns.Keys && ts.indexes == dest.indexes
    && forall n :: n in dest.constraints && IsKeyDef(dest.constraints[n]) ==>
       n in ts.constraints && ts.constraints[n] == dest.constraints[n]
  }

  lemma CoversSupports(ts: TableState, dest: TableState, columns: seq<string>)
    requires Covers(ts, dest) && Supports(dest, columns)
    ensures Supports(ts, columns)
  {
    if n :| n in dest.constraints && IsKeyDef(dest.constraints[n]) && dest.constraints[n].columns == columns {
      assert n in ts.constraints;
    } else {
      var n :| n in dest.indexes && dest.indexes[n].isUnique && dest.indexes[n].columns == columns;
      assert n in ts.indexes;
    }
  }

  /** Without a kept ALTER TABLE, only columns are dropped. */
  lemma NothingKept(ts: TableState, a: AlterTable)
    requires !Keeps(a)
    ensures AfterAlter(ts, a) == ts.(columns := ts.columns - Names(a.dropColumns))
  {
    assert ts.columns - Names(a.dropColumns) + map[] + map[] == ts.columns - Names(a.dropColumns);
    assert ts.constraints - {} + map[] == ts.constraints;
    assert ts.indexes - {} + map[] == ts.indexes;
  }

  lemma BeforeFkeysOfOld(collation: string, id: TableID, src: Table, dest: TableDef)
    requires TableOk(src.def) && TableOk(dest) && AgreeTable(StateOf(src.def), StateOf(dest))
    ensures var ts := BeforeFkeys(collation, id, Some(src), dest);
      && ts.constraints == Merged(StateOf(src.def), StateOf(dest))
      && ts.indexes == Live(dest.indexes)
      && ColumnsIncluded(collation, ts.columns, Live(dest.columns))
      && (ts.columns.Keys == Live(dest.columns).Keys <==> !OnlyDropsColumns(collation, Some(src), dest))
  {
    var a, ts := Alter(id, collation, src.def, dest, true), Unlinked(StateOf(src.def), StateOf(dest));
    AlterReaches(id, collation, src.def, dest);
    assert a == Alter(TableID("", ""), collation, src.def, dest, true).(id := id);
    if !Keeps(a) {
      NothingKept(ts, a);
      if a.dropColumns == [] {
        assert ts.columns - {} == ts.columns;
      } else {
        var n := a.dropColumns[0].name;
        assert a.dropColumns[0] in a.dropColumns;
        MissingPart(src.def.columns, dest.columns, n);
        assert n in ts.columns && n !in Live(dest.columns);
      }
    }
  }

  lemma BeforeFkeysOfNew(collation: string, id: TableID, dest: TableDef)
    requires TableOk(dest)
    ensures var ts := BeforeFkeys(collation, id, None, dest);
      && ts.indexes == Live(dest.indexes)
      && ColumnsIncluded(collation, ts.columns, Live(dest.columns)) && ts.columns.Keys == Live(dest.columns).Keys
  {
  }

  /** Whatever the table was, its keys, indexes and columns are there. */
  lemma BeforeFkeysCovers(collation: string, id: TableID, src: Option<Table>, dest: TableDef)
    requires TableOk(dest)
    requires (src.Some? ==> TableOk(src.value.def) && AgreeTable(StateOf(src.value.def), StateOf(dest)))
    ensures Covers(BeforeFkeys(collation, id, src, dest), StateOf(dest))
  {
    var ts, d := BeforeFkeys(collation, id, src, dest), StateOf(dest);
    if src.Some? {
      BeforeFkeysOfOld(collation, id, src.value, dest);
    } else {
      BeforeFkeysOfNew(collation, id, dest);
    }
    forall n | n in d.constraints && IsKeyDef(d.constraints[n])
        ensures n in ts.constraints && ts.constraints[n] == d.constraints[n] {
      if src.None? {
        NotFkeysPart(dest.constraints, n);
      }
    }
  }

  // ----- the phases one after another -----

  /** Everything that the main theorem is about. */
  ghost predicate Given(src: Catalog, dest: Catalog) {
    Consistent(src) && Consistent(dest) && Agree(src, dest)
  }

  function DefOf(t: Option<Table>): TableDef
    requires t.Some?
  {
    t.value.def
  }

  /** The database once the foreign keys are gone. */
  function Db1(src: Catalog, dest: Catalog): Database {
    WithoutFkeys(Load(src), Plan(src, dest, true).dropFkeys)
  }

  lemma DropsAreFkeys(src: Catalog, dest: Catalog)
    requires Given(src, dest)
    ensures var fkeys := Plan(src, dest, true).dropFkeys;
      DistinctKeys(fkeys) && forall k :: k in fkeys ==> IsFkeyOf(Load(src), k)
  {
    var fkeys := Plan(src, dest, true).dropFkeys;
    PlanProper(src, dest, true);
    forall k | k in fkeys ensures IsFkeyOf(Load(src), k) {
      PlanContains(src, dest, true, DropsFkey(k));
      LoadAt(src, k.table);
      LiveOf(ObjectAt(src, k.table).value.def.constraints);
    }
  }

  lemma Phase1(src: Catalog, dest: Catalog)
    requires Given(src, dest)
    ensures ExecuteAll(FkeyDropsOf(Plan(src, dest, true).dropFkeys), Load(src)) == Some(Db1(src, dest))
  {
    DropsAreFkeys(src, dest);
    FkeyDropsRun(Plan(src, dest, true).dropFkeys, Load(src));
  }

  lemma PlainConstraints(c: Catalog, id: TableID)
    requires PlainCatalog(c) && ObjectAt(c, id).Some?
    ensures Plain(ObjectAt(c, id).value.def.constraints)
  {
    FindAt(c.schemas, id.schema);
    FindAt(Find(c.schemas, id.schema).value.def, id.name);
  }

  /** Foreign key n of table t, which dest does not have. */
  predicate Dropped(src: Option<Table>, dest: Option<Table>, n: string) {
    && src.Some? && n in Live(src.value.def.constraints)
       && Live(src.value.def.constraints)[n].constraintType == ForeignKey
    && (dest.Some? ==> n !in Live(dest.value.def.constraints))
  }

  lemma DropIsPlanned(src: Catalog, dest: Catalog, k: TableKey)
    requires PlainCatalog(src) && PlainCatalog(dest) && ObjectAt(src, k.table).Some? && !k.constraint.ignore
    ensures k in Plan(src, dest, true).dropFkeys
       <==> Dropped(ObjectAt(src, k.table), ObjectAt(dest, k.table), k.constraint.name)
            && k.constraint.def == Live(ObjectAt(src, k.table).value.def.constraints)[k.constraint.name]
  {
    PlanContains(src, dest, true, DropsFkey(k));
    PlainConstraints(src, k.table);
    LiveOf(ObjectAt(src, k.table).value.def.constraints);
    if ObjectAt(dest, k.table).Some? {
      PlainConstraints(dest, k.table);
      FindIsLive(ObjectAt(dest, k.table).value.def.constraints, k.constraint.name);
    }
  }

  /** The foreign keys dropped from one table: those that dest does not have. */
  lemma DroppedAt(src: Catalog, dest: Catalog, t: TableID, n: string)
    requires PlainCatalog(src) && PlainCatalog(dest) && ObjectAt(src, t).Some?
    ensures n in KeyNames(Plan(src, dest, true).dropFkeys, t) <==> Dropped(ObjectAt(src, t), ObjectAt(dest, t), n)
  {
    var fkeys := Plan(src, dest, true).dropFkeys;
    KeyNamesMember(fkeys, t, n);
    if i: nat :| i < |fkeys| && fkeys[i].table == t && fkeys[i].constraint.name == n {
      PlanContains(src, dest, true, DropsFkey(fkeys[i]));
      DropIsPlanned(src, dest, fkeys[i]);
    }
    if Dropped(ObjectAt(src, t), ObjectAt(dest, t), n) {
      DropIsPlanned(src, dest, TableKey(t, Object(n, false, Live(ObjectAt(src, t).value.def.constraints)[n])));
    }
  }

  /** A table without its dropped foreign keys. */
  lemma Db1At(src: Catalog, dest: Catalog, t: TableID)
    requires PlainCatalog(src) && PlainCatalog(dest)
    ensures t in Db1(src, dest).tables <==> ObjectAt(src, t).Some?
    ensures t in Db1(src, dest).tables ==>
              Db1(src, dest).tables[t]
                  == WithoutKeys(StateOf(ObjectAt(src, t).value.def), KeyNames(Plan(src, dest, true).dropFkeys, t))
  {
    WithoutFkeysAt(Load(src), Plan(src, dest, true).dropFkeys, t);
    LoadAt(src, t);
  }

  lemma Db1Both(src: Catalog, dest: Catalog, t: TableID)
    requires PlainCatalog(src) && PlainCatalog(dest) && ObjectAt(src, t).Some? && ObjectAt(dest, t).Some?
    ensures t in Db1(src, dest).tables
    ensures Db1(src, dest).tables[t]
        == Unlinked(StateOf(ObjectAt(src, t).value.def), StateOf(ObjectAt(dest, t).value.def))
  {
    Db1At(src, dest, t);
    var s, d := StateOf(ObjectAt(src, t).value.def), StateOf(ObjectAt(dest, t).value.def);
    var names := KeyNames(Plan(src, dest, true).dropFkeys, t);
    forall n ensures n in names <==> OldFkey(s, d, n) {
      DroppedAt(src, dest, t, n);
    }
    UnlinkedBy(s, d, names);
  }

  lemma UnlinkedBy(s: TableState, d: TableState, names: set<string>)
    requires forall n :: n in names <==> OldFkey(s, d, n)
    ensures WithoutKeys(s, names) == Unlinked(s, d)
  {
    assert s.constraints - names == Unlinked(s, d).constraints;
  }

  lemma Db1Old(src: Catalog, dest: Catalog, t: TableID, n: string)
    requires PlainCatalog(src) && PlainCatalog(dest) && ObjectAt(dest, t).None?
    ensures !IsFkeyAt(Db1(src, dest), t, n)
  {
    Db1At(src, dest, t);
    if ObjectAt(src, t).Some? {
      DroppedAt(src, dest, t, n);
    }
  }

  /** The foreign keys that are left are those of dest. */
  lemma LeftFkey(src: Catalog, dest: Catalog, t: TableID, n: string)
    requires Given(src, dest) && IsFkeyAt(Db1(src, dest), t, n)
    ensures IsFkeyAt(Load(dest), t, n) && Load(dest).tables[t].constraints[n] == Db1(src, dest).tables[t].constraints[n]
    ensures FkeyHolds(Load(dest), Load(dest).tables[t].constraints[n])
  {
    if ObjectAt(dest, t).None? {
      Db1Old(src, dest, t, n);
    } else {
      Db1At(src, dest, t);
      Db1Both(src, dest, t);
      LoadAt(dest, t);
      UnlinkedFkey(StateOf(ObjectAt(src, t).value.def), StateOf(ObjectAt(dest, t).value.def), n);
      assert IsFkeyAt(Load(dest), t, n);
    }
  }

  lemma UnlinkedFkey(s: TableState, d: TableState, n: string)
    requires AgreeTable(s, d) && n in Unlinked(s, d).constraints
    requires Unlinked(s, d).constraints[n].constraintType == ForeignKey
    ensures n in d.constraints && d.constraints[n] == Unlinked(s, d).constraints[n]
  {
    assert n in s.constraints && n in d.constraints ==> SameConstraint(s.constraints[n], d.constraints[n]);
  }

  lemma LeftReference(src: Catalog, dest: Catalog, t: TableID, n: string, u: TableID)
    requires Given(src, dest) && References(Db1(src, dest), t, n, u)
    ensures ObjectAt(dest, u).Some? && Find(dest.schemas, u.schema).Some?
  {
    assert IsFkeyAt(Db1(src, dest), t, n);
    LeftFkey(src, dest, t, n);
    LoadAt(dest, u);
  }

  /** The database once the schemas are dropped and created. */
  function Db2(src: Catalog, dest: Catalog): Database {
    var m, db := Plan(src, dest, true), Db1(src, dest);
    Database((db.schemas - SetOf(m.dropSchemas)) + SetOf(m.createSchemas), OutsideOf(db.tables, m.dropSchemas))
  }

  lemma Phase2(src: Catalog, dest: Catalog)
    requires Given(src, dest)
    ensures ExecuteAll(SchemaStatements(Plan(src, dest, true)), Db1(src, dest)) == Some(Db2(src, dest))
  {
    var m, db := Plan(src, dest, true), Db1(src, dest);
    forall t, n, u | References(db, t, n, u) ensures u.schema !in m.dropSchemas {
      LeftReference(src, dest, t, n, u);
      PlanContains(src, dest, true, DropsSchema(u.schema));
    }
    SchemaDropsRun(m.dropSchemas, db);
    var mid := Database(db.schemas - SetOf(m.dropSchemas), OutsideOf(db.tables, m.dropSchemas));
    SchemaCreationsRun(m.createSchemas, mid);
    ExecuteAllConcat(SchemaDropsOf(m.dropSchemas), SchemaCreationsOf(m.createSchemas), db);
  }

  lemma Db2Schema(src: Catalog, dest: Catalog, s: string)
    requires Given(src, dest)
    ensures s in (Names(src.schemas) + {""}) - SetOf(Plan(src, dest, true).dropSchemas)
        + SetOf(Plan(src, dest, true).createSchemas)
       <==> s in Names(dest.schemas) + {""}
  {
    SetOfMember(Plan(src, dest, true).dropSchemas, s);
    SetOfMember(Plan(src, dest, true).createSchemas, s);
    PlanContains(src, dest, true, DropsSchema(s));
    PlanContains(src, dest, true, CreatesSchema(s));
    NamedIsFound(src.schemas, s);
    NamedIsFound(dest.schemas, s);
  }

  lemma NamedIsFound(schemas: seq<Schema>, s: string)
    requires Plain(schemas)
    ensures s in Names(schemas) <==> Find(schemas, s).Some?
  {
    FindIsLive(schemas, s);
    LiveOf(schemas);
  }

  lemma Db2Schemas(src: Catalog, dest: Catalog)
    requires Given(src, dest)
    ensures Db2(src, dest).schemas == Names(dest.schemas) + {""}
  {
    WithoutFkeysAt(Load(src), Plan(src, dest, true).dropFkeys, TableID("", ""));
    forall s ensures s in Db2(src, dest).schemas <==> s in Names(dest.schemas) + {""} {
      Db2Schema(src, dest, s);
    }
  }

  /** The database once the tables are dropped. */
  function Db3(src: Catalog, dest: Catalog): Database {
    Db2(src, dest).(tables := Db2(src, dest).tables - SetOf(Plan(src, dest, true).dropTables))
  }

  lemma KeptReference(src: Catalog, dest: Catalog, t: TableID, n: string, u: TableID)
    requires Given(src, dest) && References(Db2(src, dest), t, n, u)
    ensures u !in Plan(src, dest, true).dropTables
  {
    assert References(Db1(src, dest), t, n, u);
    LeftReference(src, dest, t, n, u);
    PlanContains(src, dest, true, DropsTable(u));
  }

  lemma Phase3Drops(src: Catalog, dest: Catalog)
    requires Given(src, dest)
    ensures ExecuteAll(TableDropsOf(Plan(src, dest, true).dropTables), Db2(src, dest)) == Some(Db3(src, dest))
  {
    var m, db := Plan(src, dest, true), Db2(src, dest);
    forall t, n, u | References(db, t, n, u) ensures u !in m.dropTables {
      KeptReference(src, dest, t, n, u);
    }
    TableDropsRun(m.dropTables, db);
  }

  /** The tables that are left are those that both catalogs have. */
  lemma Db3At(src: Catalog, dest: Catalog, t: TableID)
    requires Given(src, dest)
    ensures t in Db3(src, dest).tables <==> ObjectAt(src, t).Some? && ObjectAt(dest, t).Some?
    ensures t in Db3(src, dest).tables ==> Db3(src, dest).tables[t] == Db1(src, dest).tables[t]
  {
    var m := Plan(src, dest, true);
    Db1At(src, dest, t);
    PlanContains(src, dest, true, DropsSchema(t.schema));
    PlanContains(src, dest, true, DropsTable(t));
    SetOfMember(m.dropTables, t);
  }

  /** The database once the new tables are there too. */
  function Db4(src: Catalog, dest: Catalog): Database {
    WithTables(Db3(src, dest), Plan(src, dest, true).createTables)
  }

  lemma CreationFits(src: Catalog, dest: Catalog, t: NewTable)
    requires Given(src, dest) && t in Plan(src, dest, true).createTables
    ensures t.id.schema in Db3(src, dest).schemas && t.id !in Db3(src, dest).tables && TableOk(t.table.def)
  {
    PlanContains(src, dest, true, Creates(t));
    Db2Schemas(src, dest);
    Db3At(src, dest, t.id);
    LoadAt(dest, t.id);
    NamedIsFound(dest.schemas, t.id.schema);
  }

  lemma CreationsFit(src: Catalog, dest: Catalog)
    requires Given(src, dest)
    ensures var tables := Plan(src, dest, true).createTables;
      && DistinctTables(tables)
      && forall t :: t in tables ==>
           t.id.schema in Db3(src, dest).schemas && t.id !in Db3(src, dest).tables && TableOk(t.table.def)
  {
    PlanProper(src, dest, true);
    forall t | t in Plan(src, dest, true).createTables
      ensures t.id.schema in Db3(src, dest).schemas && t.id !in Db3(src, dest).tables && TableOk(t.table.def)
    {
      CreationFits(src, dest, t);
    }
  }

  lemma Phase3(src: Catalog, dest: Catalog)
    requires Given(src, dest)
    ensures ExecuteAll(TableStatements(Plan(src, dest, true)), Db2(src, dest)) == Some(Db4(src, dest))
  {
    var m := Plan(src, dest, true);
    Phase3Drops(src, dest);
    CreationsFit(src, dest);
    TableCreationsRun(m.createTables, Db3(src, dest));
    ExecuteAllConcat(TableDropsOf(m.dropTables), TableCreationsOf(m.createTables), Db2(src, dest));
  }

  /** The table t of src as dest wants it before it is altered. */
  function Unaltered(src: Option<Table>, dest: TableDef): TableState {
    if src.None? then CreatedState(dest) else Unlinked(StateOf(src.value.def), StateOf(dest))
  }

  lemma CreatedAt(src: Catalog, dest: Catalog, dropObjects: bool, t: TableID)
    requires PlainCatalog(src) && PlainCatalog(dest)
    ensures var tables := Plan(src, dest, dropObjects).createTables;
      && (IsCreated(tables, t) <==> ObjectAt(src, t).None? && ObjectAt(dest, t).Some?)
      && forall i :: 0 <= i < |tables| && tables[i].id == t ==> Some(tables[i].table) == ObjectAt(dest, t)
  {
    var tables := Plan(src, dest, dropObjects).createTables;
    forall i | 0 <= i < |tables| && tables[i].id == t
      ensures Some(tables[i].table) == ObjectAt(dest, t) && ObjectAt(src, t).None?
    {
      assert tables[i] in tables;
      PlanContains(src, dest, dropObjects, Creates(tables[i]));
    }
    if ObjectAt(src, t).None? && ObjectAt(dest, t).Some? {
      var new_ := NewTable(t, ObjectAt(dest, t).value);
      PlanContains(src, dest, dropObjects, Creates(new_));
      var i: nat :| i < |tables| && tables[i] == new_;
    }
  }

  /** The tables are now those of dest. */
  lemma Db4At(src: Catalog, dest: Catalog, t: TableID)
    requires Given(src, dest)
    ensures Db4(src, dest).schemas == Names(dest.schemas) + {""}
    ensures t in Db4(src, dest).tables <==> ObjectAt(dest, t).Some?
    ensures ObjectAt(dest, t).Some? ==>
        Db4(src, dest).tables[t] == Unaltered(ObjectAt(src, t), ObjectAt(dest, t).value.def)
  {
    var tables := Plan(src, dest, true).createTables;
    Db2Schemas(src, dest);
    Db3At(src, dest, t);
    CreatedAt(src, dest, true, t);
    assert DistinctTables(tables) by {
      PlanProper(src, dest, true);
    }
    WithTablesAt(Db3(src, dest), tables, t);
    if ObjectAt(src, t).Some? && ObjectAt(dest, t).Some? {
      Db1Both(src, dest, t);
    } else if ObjectAt(dest, t).Some? {
      var i: nat :| i < |tables| && tables[i].id == t;
      assert tables[i].table == ObjectAt(dest, t).value;
      CreatedIs(Db3(src, dest), tables, i);
    }
  }

  lemma Db4Fkey(src: Catalog, dest: Catalog, t: TableID, n: string)
    requires Given(src, dest) && IsFkeyAt(Db4(src, dest), t, n)
    ensures FkeyHolds(Load(dest), Db4(src, dest).tables[t].constraints[n])
  {
    Db4At(src, dest, t);
    if ObjectAt(src, t).Some? {
      Db1At(src, dest, t);
      Db1Both(src, dest, t);
      LeftFkey(src, dest, t, n);
    } else {
      NotFkeysPart(ObjectAt(dest, t).value.def.constraints, n);
    }
  }

  lemma MergedFkeys(src: TableState, dest: TableState, after: TableState)
    requires AgreeTable(src, dest) && after.constraints == Merged(src, dest)
    ensures SameFkeys(Unlinked(src, dest), after)
  {
    forall n | n in src.constraints && n in dest.constraints
        ensures SameConstraint(src.constraints[n], dest.constraints[n]) {
    }
  }

  lemma AlterIsFit(src: Catalog, dest: Catalog, a: AlterTable)
    requires Given(src, dest) && a in Plan(src, dest, true).alterTables
    ensures AlterFits(Db4(src, dest), a)
  {
    PlanContains(src, dest, true, Alters(a));
    var s, d := ObjectAt(src, a.id).value.def, ObjectAt(dest, a.id).value.def;
    Db4At(src, dest, a.id);
    LoadAt(dest, a.id);
    assert AgreeTable(StateOf(s), StateOf(d));
    AlterReaches(a.id, src.defaultCollation, s, d);
    var after := AfterAlter(Unlinked(StateOf(s), StateOf(d)), a);
    MergedFkeys(StateOf(s), StateOf(d), after);
    BeforeFkeysCovers(src.defaultCollation, a.id, ObjectAt(src, a.id), d);
    forall t, n | References(Db4(src, dest), t, n, a.id)
      ensures Supports(after, Db4(src, dest).tables[t].constraints[n].referencesColumns)
    {
      assert IsFkeyAt(Db4(src, dest), t, n);
      Db4Fkey(src, dest, t, n);
      CoversSupports(after, StateOf(d), Db4(src, dest).tables[t].constraints[n].referencesColumns);
    }
  }

  /** The database once the tables are altered. */
  function Db5(src: Catalog, dest: Catalog): Database {
    WithAlters(Db4(src, dest), Plan(src, dest, true).alterTables)
  }

  lemma AltersAreFit(src: Catalog, dest: Catalog)
    requires Given(src, dest)
    ensures var alters := Plan(src, dest, true).alterTables;
      DistinctAlters(alters) && forall a :: a in alters ==> AlterFits(Db4(src, dest), a)
  {
    PlanProper(src, dest, true);
    forall a | a in Plan(src, dest, true).alterTables ensures AlterFits(Db4(src, dest), a) {
      AlterIsFit(src, dest, a);
    }
  }

  lemma Phase4(src: Catalog, dest: Catalog)
    requires Given(src, dest)
    ensures ExecuteAll(AlterationsOf(Plan(src, dest, true).alterTables), Db4(src, dest)) == Some(Db5(src, dest))
  {
    AltersAreFit(src, dest);
    AlterationsRun(Plan(src, dest, true).alterTables, Db4(src, dest));
  }

  function AlterOf(src: Catalog, dest: Catalog, t: TableID): AlterTable
    requires ObjectAt(src, t).Some? && ObjectAt(dest, t).Some?
  {
    Alter(t, src.defaultCollation, ObjectAt(src, t).value.def, ObjectAt(dest, t).value.def, true)
  }

  lemma AlteredHere(src: Catalog, dest: Catalog, i: nat)
    requires PlainCatalog(src) && PlainCatalog(dest) && i < |Plan(src, dest, true).alterTables|
    ensures var a := Plan(src, dest, true).alterTables[i];
      ObjectAt(src, a.id).Some? && ObjectAt(dest, a.id).Some? && a == AlterOf(src, dest, a.id) && Keeps(a)
  {
    PlanContains(src, dest, true, Alters(Plan(src, dest, true).alterTables[i]));
  }

  lemma AlteredSomewhere(src: Catalog, dest: Catalog, t: TableID) returns (i: nat)
    requires PlainCatalog(src) && PlainCatalog(dest) && ObjectAt(src, t).Some? && ObjectAt(dest, t).Some?
    requires Keeps(AlterOf(src, dest, t))
    ensures i < |Plan(src, dest, true).alterTables| && Plan(src, dest, true).alterTables[i] == AlterOf(src, dest, t)
  {
    PlanContains(src, dest, true, Alters(AlterOf(src, dest, t)));
    i :| 0 <= i < |Plan(src, dest, true).alterTables| && Plan(src, dest, true).alterTables[i] == AlterOf(src, dest, t);
  }

  lemma AltersAt(src: Catalog, dest: Catalog, db: Database, t: TableID)
    requires PlainCatalog(src) && PlainCatalog(dest)
    requires t in db.tables ==>
        ObjectAt(dest, t).Some? && db.tables[t] == Unaltered(ObjectAt(src, t), ObjectAt(dest, t).value.def)
    ensures var after := WithAlters(db, Plan(src, dest, true).alterTables);
      && after.schemas == db.schemas && (t in after.tables <==> t in db.tables)
      && (t in db.tables ==>
            after.tables[t] == BeforeFkeys(src.defaultCollation, t, ObjectAt(src, t), ObjectAt(dest, t).value.def))
  {
    var alters := Plan(src, dest, true).alterTables;
    assert DistinctAlters(alters) by {
      PlanProper(src, dest, true);
    }
    WithAltersAt(db, alters, t);
    forall i | 0 <= i < |alters| && alters[i].id == t
      ensures ObjectAt(src, t).Some? && ObjectAt(dest, t).Some? && alters[i] == AlterOf(src, dest, t)
      ensures Keeps(alters[i])
    {
      AlteredHere(src, dest, i);
    }
    if t in db.tables && ObjectAt(src, t).Some? && Keeps(AlterOf(src, dest, t)) {
      var i := AlteredSomewhere(src, dest, t);
    }
  }

  lemma Db5At(src: Catalog, dest: Catalog, t: TableID)
    requires Given(src, dest)
    ensures Db5(src, dest).schemas == Names(dest.schemas) + {""}
    ensures t in Db5(src, dest).tables <==> ObjectAt(dest, t).Some?
    ensures ObjectAt(dest, t).Some? ==>
              Db5(src, dest).tables[t]
                  == BeforeFkeys(src.defaultCollation, t, ObjectAt(src, t), ObjectAt(dest, t).value.def)
  {
    Db4At(src, dest, t);
    AltersAt(src, dest, Db4(src, dest), t);
  }

  // ----- adding the foreign keys -----

  /** Foreign key n of table t, which src does not have. */
  predicate Added(src: Option<Table>, dest: Option<Table>, n: string) {
    && dest.Some? && n in Live(dest.value.def.constraints)
       && Live(dest.value.def.constraints)[n].constraintType == ForeignKey
    && (src.Some? ==> n !in Live(src.value.def.constraints))
  }

  lemma AddIsPlanned(src: Catalog, dest: Catalog, dropObjects: bool, k: TableKey)
    requires PlainCatalog(src) && PlainCatalog(dest)
    ensures k in Plan(src, dest, dropObjects).addFkeys ==>
              ObjectAt(dest, k.table).Some? && !k.constraint.ignore
              && Added(ObjectAt(src, k.table), ObjectAt(dest, k.table), k.constraint.name)
              && k.constraint.def == Live(ObjectAt(dest, k.table).value.def.constraints)[k.constraint.name]
    ensures ObjectAt(dest, k.table).Some? && !k.constraint.ignore
            && Added(ObjectAt(src, k.table), ObjectAt(dest, k.table), k.constraint.name)
            && k.constraint.def == Live(ObjectAt(dest, k.table).value.def.constraints)[k.constraint.name]
            ==> k in Plan(src, dest, dropObjects).addFkeys
  {
    PlanContains(src, dest, dropObjects, AddsFkey(k));
    if ObjectAt(dest, k.table).Some? {
      PlainConstraints(dest, k.table);
      LiveOf(ObjectAt(dest, k.table).value.def.constraints);
    }
    if ObjectAt(src, k.table).Some? {
      PlainConstraints(src, k.table);
      FindIsLive(ObjectAt(src, k.table).value.def.constraints, k.constraint.name);
    }
  }

  /** The foreign keys added to one table: those that src does not have. */
  lemma AddedAt(src: Catalog, dest: Catalog, dropObjects: bool, t: TableID, n: string)
    requires PlainCatalog(src) && PlainCatalog(dest) && ObjectAt(dest, t).Some?
    ensures n in KeysAt(Plan(src, dest, dropObjects).addFkeys, t) <==> Added(ObjectAt(src, t), ObjectAt(dest, t), n)
    ensures n in KeysAt(Plan(src, dest, dropObjects).addFkeys, t) ==>
              KeysAt(Plan(src, dest, dropObjects).addFkeys, t)[n] == Live(ObjectAt(dest, t).value.def.constraints)[n]
  {
    var fkeys := Plan(src, dest, dropObjects).addFkeys;
    assert DistinctKeys(fkeys) by {
      PlanProper(src, dest, dropObjects);
    }
    KeysAtMember(fkeys, t, n);
    if i: nat :| i < |fkeys| && fkeys[i].table == t && fkeys[i].constraint.name == n {
      AddIsPlanned(src, dest, dropObjects, fkeys[i]);
    }
    if Added(ObjectAt(src, t), ObjectAt(dest, t), n) {
      var k := TableKey(t, Object(n, false, Live(ObjectAt(dest, t).value.def.constraints)[n]));
      AddIsPlanned(src, dest, dropObjects, k);
      var i: nat :| i < |fkeys| && fkeys[i] == k;
    }
  }

  lemma CanAddPlanned(src: Catalog, dest: Catalog, k: TableKey)
    requires Given(src, dest) && k in Plan(src, dest, true).addFkeys
    ensures CanAdd(Db5(src, dest), k)
  {
    AddIsPlanned(src, dest, true, k);
    var t, u, db := k.table, k.constraint.def.references, Db5(src, dest);
    var d := ObjectAt(dest, t).value.def;
    LoadAt(dest, t);
    assert IsFkeyAt(Load(dest), t, k.constraint.name);
    assert FkeyHolds(Load(dest), k.constraint.def);
    LoadAt(dest, u);
    Db5At(src, dest, t);
    Db5At(src, dest, u);
    BeforeFkeysCovers(src.defaultCollation, u, ObjectAt(src, u), ObjectAt(dest, u).value.def);
    CoversSupports(db.tables[u], StateOf(ObjectAt(dest, u).value.def), k.constraint.def.referencesColumns);
    BeforeFkeysCovers(src.defaultCollation, t, ObjectAt(src, t), d);
    assert Has(StateOf(d), StateOf(d).constraints[k.constraint.name].columns);
    NotThereYet(src.defaultCollation, t, ObjectAt(src, t), d, k.constraint.name);
  }

  lemma NotThereYet(collation: string, id: TableID, src: Option<Table>, dest: TableDef, n: string)
    requires TableOk(dest)
    requires (src.Some? ==> TableOk(src.value.def) && AgreeTable(StateOf(src.value.def), StateOf(dest)))
    requires n in Live(dest.constraints) && Live(dest.constraints)[n].constraintType == ForeignKey
    requires src.Some? ==> n !in Live(src.value.def.constraints)
    ensures n !in BeforeFkeys(collation, id, src, dest).constraints
  {
    if src.Some? {
      BeforeFkeysOfOld(collation, id, src.value, dest);
    } else {
      NotFkeysPart(dest.constraints, n);
    }
  }

  /** The database that the plan leaves. */
  function Db6(src: Catalog, dest: Catalog): Database {
    WithFkeys(Db5(src, dest), Plan(src, dest, true).addFkeys)
  }

  lemma AddsCanBeAdded(src: Catalog, dest: Catalog)
    requires Given(src, dest)
    ensures var fkeys := Plan(src, dest, true).addFkeys;
      DistinctKeys(fkeys) && forall k :: k in fkeys ==> CanAdd(Db5(src, dest), k)
  {
    PlanProper(src, dest, true);
    forall k | k in Plan(src, dest, true).addFkeys ensures CanAdd(Db5(src, dest), k) {
      CanAddPlanned(src, dest, k);
    }
  }

  lemma Phase5(src: Catalog, dest: Catalog)
    requires Given(src, dest)
    ensures ExecuteAll(FkeyAddsOf(Plan(src, dest, true).addFkeys), Db5(src, dest)) == Some(Db6(src, dest))
  {
    AddsCanBeAdded(src, dest);
    FkeyAddsRun(Plan(src, dest, true).addFkeys, Db5(src, dest));
  }

  // ----- the result -----

  /** The constraints of a table with its missing foreign keys added. */
  lemma AllConstraints(before: map<string, ConstraintDef>, added: map<string, ConstraintDef>, src: Option<Table>,
                       dest: TableDef)
    requires src.Some? ==>
        AgreeTable(StateOf(src.value.def), StateOf(dest)) && before == Merged(StateOf(src.value.def), StateOf(dest))
    requires src.None? ==> Plain(dest.constraints) && before == Live(NotFkeys(dest.constraints))
    requires forall n {:trigger n in added} ::
        (n in added <==> AddedTo(src, dest, n)) && (n in added ==> added[n] == Live(dest.constraints)[n])
    ensures before + added == FinalConstraints(src, dest)
  {
    var final := FinalConstraints(src, dest);
    forall n ensures SameAt(before + added, final, n) {
      if src.None? {
        NotFkeysPart(dest.constraints, n);
      } else {
        var s, d := Live(src.value.def.constraints), Live(dest.constraints);
        assert n in s && n in d ==> SameConstraint(s[n], d[n]);
      }
    }
    SameEverywhere(before + added, final);
  }

  predicate AddedTo(src: Option<Table>, dest: TableDef, n: string) {
    && n in Live(dest.constraints) && Live(dest.constraints)[n].constraintType == ForeignKey
    && (src.Some? ==> n !in Live(src.value.def.constraints))
  }

  lemma FinalTable(src: Catalog, dest: Catalog, t: TableID)
    requires Given(src, dest) && ObjectAt(dest, t).Some?
    ensures t in Db6(src, dest).tables
    ensures TableReached(src.defaultCollation, ObjectAt(src, t), ObjectAt(dest, t).value.def, Db6(src, dest).tables[t])
  {
    var fkeys := Plan(src, dest, true).addFkeys;
    var s, d := ObjectAt(src, t), ObjectAt(dest, t).value.def;
    WithFkeysAt(Db5(src, dest), fkeys, t);
    Db5At(src, dest, t);
    PlainConstraints(dest, t);
    forall n {:trigger n in KeysAt(fkeys, t)}
      ensures (n in KeysAt(fkeys, t) <==> AddedTo(s, d, n))
      ensures (n in KeysAt(fkeys, t) ==> KeysAt(fkeys, t)[n] == Live(d.constraints)[n])
    {
      AddedAt(src, dest, true, t, n);
    }
    var before := BeforeFkeys(src.defaultCollation, t, s, d);
    if s.Some? {
      assert AgreeTable(StateOf(s.value.def), StateOf(d));
      BeforeFkeysOfOld(src.defaultCollation, t, s.value, d);
    } else {
      BeforeFkeysOfNew(src.defaultCollation, t, d);
    }
    AllConstraints(before.constraints, KeysAt(fkeys, t), s, d);
  }

  /** Run in order, the statements of a plan that may drop objects all go through, and leave
      the schemas, tables, constraints, indexes and columns of dest: the columns exactly,
      unless all that the table's ALTER TABLE would have done is drop columns. */
  lemma MigrationReaches(src: Catalog, dest: Catalog)
    requires Consistent(src) && Consistent(dest) && Agree(src, dest)
    ensures var after := ExecuteAll(Statements(Plan(src, dest, true)), Load(src));
      after.Some? && Reached(src, dest, after.value)
  {
    PlanRuns(src, dest);
    forall t ensures t in Db6(src, dest).tables <==> ObjectAt(dest, t).Some? {
      WithFkeysAt(Db5(src, dest), Plan(src, dest, true).addFkeys, t);
      Db5At(src, dest, t);
    }
    WithFkeysAt(Db5(src, dest), Plan(src, dest, true).addFkeys, TableID("", ""));
    Db5At(src, dest, TableID("", ""));
    forall t | t in Db6(src, dest).tables && ObjectAt(dest, t).Some?
      ensures TableReached(src.defaultCollation, ObjectAt(src, t), ObjectAt(dest, t).value.def,
                           Db6(src, dest).tables[t])
    {
      FinalTable(src, dest, t);
    }
  }

  lemma PlanRuns(src: Catalog, dest: Catalog)
    requires Given(src, dest)
    ensures ExecuteAll(Statements(Plan(src, dest, true)), Load(src)) == Some(Db6(src, dest))
  {
    var m := Plan(src, dest, true);
    var s1, s2, s3, s4 := FkeyDropsOf(m.dropFkeys), SchemaStatements(m), TableStatements(m),
        AlterationsOf(m.alterTables);
    Phase1(src, dest);
    Phase2(src, dest);
    Phase3(src, dest);
    Phase4(src, dest);
    Phase5(src, dest);
    ExecuteAllConcat(s1, s2, Load(src));
    ExecuteAllConcat(s1 + s2, s3, Load(src));
    ExecuteAllConcat(s1 + s2 + s3, s4, Load(src));
    ExecuteAllConcat(s1 + s2 + s3 + s4, FkeyAddsOf(m.addFkeys), Load(src));
  }
}
