/** A MySQL plan that may not drop objects adds all that dest has: if its statements go through, every schema, table,
    column, index and constraint of dest is there, as dest has it. */
module MySqlAdds {
  import opened Common
  import opened Catalogs
  import opened MySqlDatabase
  import opened MySqlPlan
  import opened MySqlSql
  import opened MySqlAlter
  import opened MySqlPhases
  import opened MySqlPlanItems
  import opened MySqlCorrect
  import opened MySqlKeeps

  // ----- what clauses leave, if they go through -----

  lemma ApplyAllLast(clauses: seq<MySqlDatabase.Clause>, clause: MySqlDatabase.Clause, ts: TableState)
    ensures ApplyAll(clauses + [clause], ts)
         == match ApplyAll(clauses, ts) case None => None case Some(mid) => Apply(clause, mid)
  {
    assert (clauses + [clause])[..|clauses|] == clauses;
  }

  lemma {:induction false} ConstraintDropsLeave(cs: seq<Constraint>, ts: TableState)
    requires ApplyAll(ConstraintDrops(cs), ts).Some?
    ensures ApplyAll(ConstraintDrops(cs), ts) == Some(ts.(constraints := ts.constraints - Names(cs)))
  {
    if cs == [] {
      assert ts.constraints - Names(cs) == ts.constraints;
    } else {
      var init, last := cs[..|cs| - 1], cs[|cs| - 1];
      ApplyAllLast(ConstraintDrops(init), DropConstraint(last.name), ts);
      ConstraintDropsLeave(init, ts);
      assert ts.constraints - Names(init) - {last.name} == ts.constraints - Names(cs);
    }
  }

  lemma {:induction false} ColumnAddsLeave(cs: seq<Column>, ts: TableState)
    requires Plain(cs) && ApplyAll(ColumnAdds(cs), ts).Some?
    ensures ApplyAll(ColumnAdds(cs), ts) == Some(ts.(columns := ts.columns + StoredColumns(cs)))
  {
    if cs == [] {
      assert ts.columns + StoredColumns(cs) == ts.columns;
    } else {
      var init, last := cs[..|cs| - 1], cs[|cs| - 1];
      ApplyAllLast(ColumnAdds(init), AddColumn(last), ts);
      StoredLast(ts.columns, cs);
      ColumnAddsLeave(init, ts);
    }
  }

  lemma {:induction false} ColumnChangesLeave(cs: seq<(Column, Column)>, ts: TableState)
    requires Plain(Seconds(cs)) && ApplyAll(ColumnChanges(cs), ts).Some?
    ensures ApplyAll(ColumnChanges(cs), ts) == Some(ts.(columns := ts.columns + StoredColumns(Seconds(cs))))
  {
    if cs == [] {
      assert ts.columns + StoredColumns(Seconds(cs)) == ts.columns;
    } else {
      var init, last := cs[..|cs| - 1], cs[|cs| - 1];
      assert Seconds(cs)[..|cs| - 1] == Seconds(init);
      ApplyAllLast(ColumnChanges(init), ModifyColumn(last.1), ts);
      StoredLast(ts.columns, Seconds(cs));
      ColumnChangesLeave(init, ts);
    }
  }

  lemma {:induction false} IndexAddsLeave(xs: seq<Index>, ts: TableState)
    requires Plain(xs) && ApplyAll(IndexAdds(xs), ts).Some?
    ensures ApplyAll(IndexAdds(xs), ts) == Some(ts.(indexes := ts.indexes + Live(xs)))
  {
    if xs == [] {
      assert ts.indexes + Live(xs) == ts.indexes;
    } else {
      var init, last := xs[..|xs| - 1], xs[|xs| - 1];
      ApplyAllLast(IndexAdds(init), AddIndex(last), ts);
      WithLast(ts.indexes, xs);
      IndexAddsLeave(init, ts);
    }
  }

  lemma {:induction false} ConstraintAddsLeave(cs: seq<Constraint>, ts: TableState)
    requires Plain(cs) && ApplyAll(ConstraintAdds(cs), ts).Some?
    ensures ApplyAll(ConstraintAdds(cs), ts) == Some(ts.(constraints := ts.constraints + Live(cs)))
  {
    if cs == [] {
      assert ts.constraints + Live(cs) == ts.constraints;
    } else {
      var init, last := cs[..|cs| - 1], cs[|cs| - 1];
      ApplyAllLast(ConstraintAdds(init), AddConstraint(last), ts);
      WithLast(ts.constraints, cs);
      ConstraintAddsLeave(init, ts);
    }
  }

  /** The lists of an ALTER TABLE that drops nothing but keys that come back. */
  ghost predicate OnlyAdds(a: MySqlPlan.AlterTable) {
    && a.dropIndexes == [] && a.dropColumns == [] && Plain(a.addColumns) && Plain(Seconds(a.alterColumns))
    && Plain(a.createIndexes) && Plain(a.addConstraints)
  }

  lemma AddClausesLeave(a: MySqlPlan.AlterTable, ts: TableState)
    requires OnlyAdds(a) && ApplyAll(AddClauses(a), ts).Some?
    ensures ApplyAll(AddClauses(a), ts)
         == Some(TableState(ts.columns + StoredColumns(a.addColumns) + StoredColumns(Seconds(a.alterColumns)),
                            ts.constraints + Live(a.addConstraints), ts.indexes + Live(a.createIndexes)))
  {
    var c1, c2, c3, c4 := ColumnAdds(a.addColumns), ColumnChanges(a.alterColumns), IndexAdds(a.createIndexes),
        ConstraintAdds(a.addConstraints);
    ApplyAllConcat(c1 + c2 + c3, c4, ts);
    ApplyAllConcat(c1 + c2, c3, ts);
    ApplyAllConcat(c1, c2, ts);
    ColumnAddsLeave(a.addColumns, ts);
    var t1 := ts.(columns := ts.columns + StoredColumns(a.addColumns));
    ColumnChangesLeave(a.alterColumns, t1);
    var t2 := t1.(columns := t1.columns + StoredColumns(Seconds(a.alterColumns)));
    IndexAddsLeave(a.createIndexes, t2);
    ConstraintAddsLeave(a.addConstraints, t2.(indexes := t2.indexes + Live(a.createIndexes)));
  }

  lemma ClausesOf(a: MySqlPlan.AlterTable)
    requires OnlyAdds(a)
    ensures Clauses(a) == ConstraintDrops(a.dropConstraints) + AddClauses(a)
  {
    assert DropClauses(a) == ConstraintDrops(a.dropConstraints);
  }

  lemma OnlyAddsLeave(a: MySqlPlan.AlterTable, ts: TableState)
    requires OnlyAdds(a)
    ensures AfterAlter(ts, a)
         == TableState(ts.columns + StoredColumns(a.addColumns) + StoredColumns(Seconds(a.alterColumns)),
                       (ts.constraints - Names(a.dropConstraints)) + Live(a.addConstraints),
                       ts.indexes + Live(a.createIndexes))
  {
    assert ts.columns - {} == ts.columns && ts.indexes - {} == ts.indexes;
  }

  lemma ClausesLeave(a: MySqlPlan.AlterTable, ts: TableState)
    requires OnlyAdds(a) && ApplyAll(Clauses(a), ts).Some?
    ensures ApplyAll(Clauses(a), ts) == Some(AfterAlter(ts, a))
  {
    ClausesOf(a);
    ApplyAllConcat(ConstraintDrops(a.dropConstraints), AddClauses(a), ts);
    ConstraintDropsLeave(a.dropConstraints, ts);
    AddClausesLeave(a, ts.(constraints := ts.constraints - Names(a.dropConstraints)));
    OnlyAddsLeave(a, ts);
  }

  // ----- what statements leave -----

  lemma ExecuteAllLast(ss: seq<MySqlDatabase.Statement>, s: MySqlDatabase.Statement, db: Database)
    ensures ExecuteAll(ss + [s], db) == match ExecuteAll(ss, db) case None => None case Some(mid) => Execute(s, mid)
  {
    assert (ss + [s])[..|ss|] == ss;
  }

  lemma AlterationLeaves(a: MySqlPlan.AlterTable, db: Database)
    requires OnlyAdds(a) && Execute(MySqlDatabase.AlterTable(a.id, Clauses(a)), db).Some?
    ensures a.id in db.tables
    ensures Execute(MySqlDatabase.AlterTable(a.id, Clauses(a)), db)
         == Some(db.(tables := db.tables[a.id := AfterAlter(db.tables[a.id], a)]))
  {
    ClausesLeave(a, db.tables[a.id]);
  }

  lemma {:induction false} AlterationsLeave(alters: seq<MySqlPlan.AlterTable>, db: Database)
    requires (forall a :: a in alters ==> OnlyAdds(a)) && ExecuteAll(AlterationsOf(alters), db).Some?
    ensures ExecuteAll(AlterationsOf(alters), db) == Some(WithAlters(db, alters))
  {
    if alters == [] {
    } else {
      var init, last := alters[..|alters| - 1], alters[|alters| - 1];
      assert alters == init + [last];
      ExecuteAllLast(AlterationsOf(init), MySqlDatabase.AlterTable(last.id, Clauses(last)), db);
      AlterationsLeave(init, db);
      AlterationLeaves(last, WithAlters(db, init));
    }
  }

  lemma {:induction false} FkeyAddsLeave(fkeys: seq<TableKey>, db: Database)
    requires ExecuteAll(FkeyAddsOf(fkeys), db).Some?
    ensures ExecuteAll(FkeyAddsOf(fkeys), db) == Some(WithFkeys(db, fkeys))
  {
    if fkeys == [] {
    } else {
      var init, last := fkeys[..|fkeys| - 1], fkeys[|fkeys| - 1];
      ExecuteAllLast(FkeyAddsOf(init), AddForeignKey(last.table, last.constraint), db);
      FkeyAddsLeave(init, db);
    }
  }

  lemma {:induction false} IndexCreationsLeave(id: TableID, xs: seq<Index>, db: Database)
    requires Plain(xs) && id in db.tables && ExecuteAll(IndexCreationsOf(id, xs), db).Some?
    ensures ExecuteAll(IndexCreationsOf(id, xs), db)
         == Some(db.(tables := db.tables[id := db.tables[id].(indexes := db.tables[id].indexes + Live(xs))]))
  {
    var ts := db.tables[id];
    if xs == [] {
      assert ts.indexes + Live(xs) == ts.indexes && db.tables[id := ts] == db.tables;
    } else {
      var init, last := xs[..|xs| - 1], xs[|xs| - 1];
      ExecuteAllLast(IndexCreationsOf(id, init), CreateIndex(id, last), db);
      IndexCreationsLeave(id, init, db);
      WithLast(ts.indexes, xs);
      assert db.tables[id := ts.(indexes := ts.indexes + Live(init))][id := ts.(indexes := ts.indexes + Live(xs))]
          == db.tables[id := ts.(indexes := ts.indexes + Live(xs))];
    }
  }

  ghost predicate PlainLists(d: TableDef) {
    Plain(d.columns) && Plain(d.constraints) && Plain(d.indexes)
  }

  /** The table before its indexes are created. */
  function BareState(d: TableDef): TableState {
    NewState(d.columns, NotFkeys(d.constraints))
  }

  lemma CreateLeaves(t: NewTable, db: Database)
    requires PlainLists(t.table.def)
    ensures var s := CreateTable(t.id, Written(t.table.def.columns), NotFkeys(t.table.def.constraints));
      ExecuteAll([s], db).Some? ==>
          ExecuteAll([s], db) == Some(WithBare(t, db))
  {
    var s := CreateTable(t.id, Written(t.table.def.columns), NotFkeys(t.table.def.constraints));
    ExecuteAllLast([], s, db);
    assert [] + [s] == [s];
    WrittenAll(t.table.def.columns);
  }

  lemma CreatesThenIndexes(t: NewTable, db: Database)
    requires PlainLists(t.table.def) && ExecuteAll(CreationOf(t), db).Some?
    ensures ExecuteAll(CreationOf(t), db)
         == ExecuteAll(IndexCreationsOf(t.id, t.table.def.indexes), WithBare(t, db))
  {
    var d := t.table.def;
    var create := CreateTable(t.id, Written(d.columns), NotFkeys(d.constraints));
    ExecuteAllConcat([create], IndexCreationsOf(t.id, d.indexes), db);
    CreateLeaves(t, db);
  }

  function WithBare(t: NewTable, db: Database): Database {
    db.(tables := db.tables[t.id := BareState(t.table.def)])
  }

  lemma CreationLeaves(t: NewTable, db: Database)
    requires PlainLists(t.table.def) && ExecuteAll(CreationOf(t), db).Some?
    ensures ExecuteAll(CreationOf(t), db) == Some(db.(tables := db.tables[t.id := CreatedState(t.table.def)]))
  {
    CreatesThenIndexes(t, db);
    IndexCreationsLeave(t.id, t.table.def.indexes, WithBare(t, db));
    IndexedIsCreated(t, db);
  }

  lemma IndexedIsCreated(t: NewTable, db: Database)
    ensures var mid, bare := WithBare(t, db), BareState(t.table.def);
      mid.(tables := mid.tables[t.id := bare.(indexes := bare.indexes + Live(t.table.def.indexes))])
          == db.(tables := db.tables[t.id := CreatedState(t.table.def)])
  {
    var mid, d := WithBare(t, db), t.table.def;
    assert map[] + Live(d.indexes) == Live(d.indexes);
    assert mid.tables[t.id := CreatedState(d)] == db.tables[t.id := CreatedState(d)];
  }

  lemma {:induction false} TableCreationsLeave(tables: seq<NewTable>, db: Database)
    requires (forall t :: t in tables ==> PlainLists(t.table.def)) && ExecuteAll(TableCreationsOf(tables), db).Some?
    ensures ExecuteAll(TableCreationsOf(tables), db) == Some(WithTables(db, tables))
  {
    if tables == [] {
    } else {
      var init, last := tables[..|tables| - 1], tables[|tables| - 1];
      assert tables == init + [last];
      ExecuteAllConcat(TableCreationsOf(init), CreationOf(last), db);
      TableCreationsLeave(init, db);
      CreationLeaves(last, WithTables(db, init));
    }
  }

  // ----- one table -----

  /** The table of src, or an empty one. */
  function OldState(src: Option<Table>): TableState {
    if src.Some? then StateOf(src.value.def) else TableState(map[], map[], map[])
  }

  /** A CHECK of dest that is not added, as the table is there and does not have it. */
  predicate CheckLeftOut(src: Option<Table>, c: ConstraintDef, n: string) {
    src.Some? && c.constraintType == Check && n !in Live(src.value.def.constraints)
  }

  /** The table has what src has and all that dest has, as dest has it, and nothing else. */
  ghost predicate TableGrown(collation: string, src: Option<Table>, dest: TableDef, ts: TableState) {
    var was, d := OldState(src), StateOf(dest);
    && ts.columns.Keys == was.columns.Keys + d.columns.Keys
    && ColumnsIncluded(collation, ts.columns, Live(dest.columns))
    && (forall n :: n in was.columns && n !in d.columns ==> ts.columns[n] == was.columns[n])
    && ts.indexes == was.indexes + d.indexes
    && (forall n :: SameAt(ts.constraints, GrownConstraints(src, d.constraints), n))
  }

  function GrownConstraints(src: Option<Table>, dest: map<string, ConstraintDef>): map<string, ConstraintDef> {
    OldState(src).constraints + map n | n in dest && !CheckLeftOut(src, dest[n], n) :: dest[n]
  }

  ghost predicate BothOk(src: Option<Table>, dest: TableDef) {
    TableOk(dest)
    && (src.Some? ==> TableOk(src.value.def) && AgreeTable(StateOf(src.value.def), StateOf(dest)))
  }

  /** The table before its new foreign keys are added. */
  function Widened(id: TableID, collation: string, src: Option<Table>, dest: TableDef): TableState {
    if src.None? then CreatedState(dest)
    else
      var a, ts := Alter(id, collation, src.value.def, dest, false), StateOf(src.value.def);
      if Keeps(a) then AfterAlter(ts, a) else ts
  }

  lemma AlterOnlyAdds(id: TableID, collation: string, src: TableDef, dest: TableDef)
    requires TableOk(src) && TableOk(dest)
    ensures OnlyAdds(Alter(id, collation, src, dest, false))
  {
    MissingMember(dest.columns, src.columns);
    MissingMember(dest.indexes, src.indexes);
    AlteredMember(collation, src.columns, dest.columns);
    NewKeysMember(src.constraints, dest.constraints);
  }

  /** An ALTER TABLE that the planner leaves out would change nothing. */
  lemma LeftOutChangesNothing(id: TableID, collation: string, src: TableDef, dest: TableDef)
    requires !Keeps(Alter(id, collation, src, dest, false))
    ensures AfterAlter(StateOf(src), Alter(id, collation, src, dest, false)) == StateOf(src)
  {
    var ts := StateOf(src);
    NothingKept(ts, Alter(id, collation, src, dest, false));
    assert ts.columns - {} == ts.columns;
  }

  lemma WidenedColumn(id: TableID, collation: string, src: Table, dest: TableDef, n: string)
    requires TableOk(src.def) && TableOk(dest)
    ensures var columns := Widened(id, collation, Some(src), dest).columns;
      && (n in columns <==> n in Live(src.def.columns) || n in Live(dest.columns))
      && (n in Live(dest.columns) ==> SameColumn(collation, columns[n], Live(dest.columns)[n]))
      && (n in Live(src.def.columns) && n !in Live(dest.columns) ==> columns[n] == StateOf(src.def).columns[n])
  {
    if !Keeps(Alter(id, collation, src.def, dest, false)) {
      LeftOutChangesNothing(id, collation, src.def, dest);
    }
    MissingPart(dest.columns, src.def.columns, n);
    AlteredPart(collation, src.def.columns, dest.columns, n);
    assert NoIdentity(src.def.columns, n) && NoIdentity(dest.columns, n);
  }

  lemma WidenedIndexes(id: TableID, collation: string, src: Table, dest: TableDef)
    requires BothOk(Some(src), dest)
    ensures Widened(id, collation, Some(src), dest).indexes == Live(src.def.indexes) + Live(dest.indexes)
  {
    if !Keeps(Alter(id, collation, src.def, dest, false)) {
      LeftOutChangesNothing(id, collation, src.def, dest);
    }
    var after, s, d := Widened(id, collation, Some(src), dest).indexes, StateOf(src.def).indexes, StateOf(dest).indexes;
    forall n ensures (n in after <==> n in s + d) && (n in after ==> after[n] == (s + d)[n]) {
      MissingPart(dest.indexes, src.def.indexes, n);
    }
  }

  /** The keys after an ALTER TABLE that drops only those that come back. */
  lemma KeyAfter(s: seq<Constraint>, d: seq<Constraint>, n: string)
    requires Plain(s) && Plain(d) && (n in Live(s) && n in Live(d) ==> SameConstraint(Live(s)[n], Live(d)[n]))
    ensures var after := (Live(s) - Names(OldKeys(s, d))) + Live(NewKeys(s, d));
      && (n in after <==> n in Live(s) || (n in Live(d) && IsKeyDef(Live(d)[n])))
      && (n in after ==> after[n] == if n in Live(d) then Live(d)[n] else Live(s)[n])
  {
    OldKeysMember(s, d);
    NewKeysMember(s, d);
    LiveOfPart(s, OldKeys(s, d), n);
    LiveOfPart(d, NewKeys(s, d), n);
  }

  lemma WidenedKeys(id: TableID, collation: string, src: Table, dest: TableDef)
    ensures var s, d := src.def.constraints, dest.constraints;
      Widened(id, collation, Some(src), dest).constraints == (Live(s) - Names(OldKeys(s, d))) + Live(NewKeys(s, d))
  {
    var a := Alter(id, collation, src.def, dest, false);
    assert a.dropConstraints == OldKeys(src.def.constraints, dest.constraints);
    if !Keeps(a) {
      LeftOutChangesNothing(id, collation, src.def, dest);
    }
  }

  lemma WidenedConstraint(id: TableID, collation: string, src: Table, dest: TableDef, n: string)
    requires BothOk(Some(src), dest)
    ensures var after, s, d :=
        Widened(id, collation, Some(src), dest).constraints, Live(src.def.constraints), Live(dest.constraints);
      && (n in after <==> n in s || (n in d && IsKeyDef(d[n])))
      && (n in after ==> after[n] == if n in d then d[n] else s[n])
  {
    assert n in StateOf(src.def).constraints && n in StateOf(dest).constraints ==>
        SameConstraint(Live(src.def.constraints)[n], Live(dest.constraints)[n]);
    KeyAfter(src.def.constraints, dest.constraints, n);
    WidenedKeys(id, collation, src, dest);
  }

  // ----- the whole plan -----

  /** The database that the lists of a plan without drops leave. */
  function Widest(m: Migration, db: Database): Database {
    WithFkeys(WithAlters(WithTables(db.(schemas := db.schemas + SetOf(m.createSchemas)), m.createTables),
                         m.alterTables), m.addFkeys)
  }

  lemma ListsAreFit(src: Catalog, dest: Catalog)
    requires Consistent(src) && Consistent(dest)
    ensures forall t :: t in Plan(src, dest, false).createTables ==> PlainLists(t.table.def)
    ensures forall a :: a in Plan(src, dest, false).alterTables ==> OnlyAdds(a)
  {
    var m := Plan(src, dest, false);
    forall t | t in m.createTables ensures PlainLists(t.table.def) {
      PlanContains(src, dest, false, Creates(t));
      assert TableOk(ObjectAt(dest, t.id).value.def);
    }
    forall a | a in m.alterTables ensures OnlyAdds(a) {
      PlanContains(src, dest, false, Alters(a));
      AlterOnlyAdds(a.id, src.defaultCollation, ObjectAt(src, a.id).value.def, ObjectAt(dest, a.id).value.def);
    }
  }

  lemma NoDropStatements(m: Migration)
    requires m.dropFkeys == [] && m.dropSchemas == [] && m.dropTables == []
    ensures Statements(m) == SchemaCreationsOf(m.createSchemas)
        + (TableCreationsOf(m.createTables) + (AlterationsOf(m.alterTables) + FkeyAddsOf(m.addFkeys)))
  {
  }

  lemma StatementsLeave(src: Catalog, dest: Catalog, db: Database)
    requires Consistent(src) && Consistent(dest) && ExecuteAll(Statements(Plan(src, dest, false)), db).Some?
    ensures ExecuteAll(Statements(Plan(src, dest, false)), db) == Some(Widest(Plan(src, dest, false), db))
  {
    var m := Plan(src, dest, false);
    NothingDropped(src, dest);
    NoDropStatements(m);
    ListsAreFit(src, dest);
    ListsLeave(m, db);
  }

  lemma ListsLeave(m: Migration, db: Database)
    requires forall t :: t in m.createTables ==> PlainLists(t.table.def)
    requires forall a :: a in m.alterTables ==> OnlyAdds(a)
    requires ExecuteAll(SchemaCreationsOf(m.createSchemas) + (TableCreationsOf(m.createTables)
        + (AlterationsOf(m.alterTables) + FkeyAddsOf(m.addFkeys))), db).Some?
    ensures ExecuteAll(SchemaCreationsOf(m.createSchemas) + (TableCreationsOf(m.createTables)
        + (AlterationsOf(m.alterTables) + FkeyAddsOf(m.addFkeys))), db) == Some(Widest(m, db))
  {
    var s1, s2, s3, s4 := SchemaCreationsOf(m.createSchemas), TableCreationsOf(m.createTables),
        AlterationsOf(m.alterTables), FkeyAddsOf(m.addFkeys);
    ExecuteAllConcat(s1, s2 + (s3 + s4), db);
    SchemaCreationsRun(m.createSchemas, db);
    var db1 := db.(schemas := db.schemas + SetOf(m.createSchemas));
    ExecuteAllConcat(s2, s3 + s4, db1);
    TableCreationsLeave(m.createTables, db1);
    var db2 := WithTables(db1, m.createTables);
    ExecuteAllConcat(s3, s4, db2);
    AlterationsLeave(m.alterTables, db2);
    FkeyAddsLeave(m.addFkeys, WithAlters(db2, m.alterTables));
  }

  // ----- the tables of the whole database -----

  /** The table before its foreign keys are added, if it is to be there. */
  function WidenedAt(src: Catalog, dest: Catalog, t: TableID): Option<TableState> {
    match ObjectAt(dest, t)
    case Some(d) => Some(Widened(t, src.defaultCollation, ObjectAt(src, t), d.def))
    case None =>
      match ObjectAt(src, t)
      case Some(s) => Some(StateOf(s.def))
      case None => None
  }

  function TableAt(db: Database, t: TableID): Option<TableState> {
    if t in db.tables then Some(db.tables[t]) else None
  }

  /** The table before it is altered. */
  function Unwidened(src: Catalog, dest: Catalog, t: TableID): Option<TableState> {
    if ObjectAt(src, t).Some? then Some(StateOf(ObjectAt(src, t).value.def))
    else if ObjectAt(dest, t).Some? then Some(CreatedState(ObjectAt(dest, t).value.def))
    else None
  }

  lemma CreatedTableAt(src: Catalog, dest: Catalog, t: TableID)
    requires Consistent(src) && Consistent(dest)
    ensures var db := Load(src).(schemas := Load(src).schemas + SetOf(Plan(src, dest, false).createSchemas));
      TableAt(WithTables(db, Plan(src, dest, false).createTables), t) == Unwidened(src, dest, t)
  {
    var m := Plan(src, dest, false);
    var db := Load(src).(schemas := Load(src).schemas + SetOf(m.createSchemas));
    LoadAt(src, t);
    CreatedAt(src, dest, false, t);
    WithTablesAt(db, m.createTables, t);
    if IsCreated(m.createTables, t) {
      var i: nat :| i < |m.createTables| && m.createTables[i].id == t;
      assert DistinctTables(m.createTables) by {
        PlanProper(src, dest, false);
      }
      CreatedIs(db, m.createTables, i);
    }
  }

  /** The ALTER TABLE of a table that both catalogs have. */
  function Widening(src: Catalog, dest: Catalog, t: TableID): AlterTable
    requires ObjectAt(src, t).Some? && ObjectAt(dest, t).Some?
  {
    Alter(t, src.defaultCollation, ObjectAt(src, t).value.def, ObjectAt(dest, t).value.def, false)
  }

  lemma WideningHere(src: Catalog, dest: Catalog, i: nat)
    requires PlainCatalog(src) && PlainCatalog(dest) && i < |Plan(src, dest, false).alterTables|
    ensures var a := Plan(src, dest, false).alterTables[i];
      ObjectAt(src, a.id).Some? && ObjectAt(dest, a.id).Some? && a == Widening(src, dest, a.id) && Keeps(a)
  {
    PlanContains(src, dest, false, Alters(Plan(src, dest, false).alterTables[i]));
  }

  lemma WideningSomewhere(src: Catalog, dest: Catalog, t: TableID) returns (i: nat)
    requires PlainCatalog(src) && PlainCatalog(dest) && ObjectAt(src, t).Some? && ObjectAt(dest, t).Some?
    requires Keeps(Widening(src, dest, t))
    ensures i < |Plan(src, dest, false).alterTables| && Plan(src, dest, false).alterTables[i] == Widening(src, dest, t)
  {
    PlanContains(src, dest, false, Alters(Widening(src, dest, t)));
    i :| 0 <= i < |Plan(src, dest, false).alterTables|
      && Plan(src, dest, false).alterTables[i] == Widening(src, dest, t);
  }

  lemma AlteredTableAt(src: Catalog, dest: Catalog, db: Database, t: TableID)
    requires PlainCatalog(src) && PlainCatalog(dest)
    requires TableAt(db, t) == Unwidened(src, dest, t)
    ensures TableAt(WithAlters(db, Plan(src, dest, false).alterTables), t) == WidenedAt(src, dest, t)
  {
    var alters := Plan(src, dest, false).alterTables;
    assert DistinctAlters(alters) by {
      PlanProper(src, dest, false);
    }
    WithAltersAt(db, alters, t);
    forall i | 0 <= i < |alters| && alters[i].id == t
      ensures ObjectAt(src, t).Some? && ObjectAt(dest, t).Some? && alters[i] == Widening(src, dest, t)
      ensures Keeps(alters[i])
    {
      WideningHere(src, dest, i);
    }
    if ObjectAt(src, t).Some? && ObjectAt(dest, t).Some? && Keeps(Widening(src, dest, t)) {
      var i := WideningSomewhere(src, dest, t);
    }
  }

  lemma FkeysAddedAt(src: Catalog, dest: Catalog, t: TableID)
    requires Consistent(src) && Consistent(dest)
    ensures ObjectAt(dest, t).None? ==> KeysAt(Plan(src, dest, false).addFkeys, t) == map[]
  {
    var fkeys := Plan(src, dest, false).addFkeys;
    if ObjectAt(dest, t).None? {
      assert DistinctKeys(fkeys) by {
        PlanProper(src, dest, false);
      }
      forall n ensures n !in KeysAt(fkeys, t) {
        KeysAtMember(fkeys, t, n);
        forall i | 0 <= i < |fkeys| ensures fkeys[i].table != t {
          AddIsPlanned(src, dest, false, fkeys[i]);
        }
      }
    }
  }

  /** The constraint before foreign keys are added. */
  lemma WidenedConstraintAt(id: TableID, collation: string, src: Option<Table>, dest: TableDef, n: string)
    requires BothOk(src, dest)
    ensures var after, s, d := Widened(id, collation, src, dest).constraints, OldState(src).constraints,
        Live(dest.constraints);
      && (n in after <==> n in s || (n in d && (IsKeyDef(d[n]) || (src.None? && d[n].constraintType == Check))))
      && (n in after ==> after[n] == if n in d then d[n] else s[n])
  {
    if src.Some? {
      WidenedConstraint(id, collation, src.value, dest, n);
    } else {
      NotFkeysPart(dest.constraints, n);
    }
  }

  lemma GrownAt(src: Option<Table>, d: map<string, ConstraintDef>, n: string)
    ensures var s := OldState(src).constraints;
      && (n in GrownConstraints(src, d) <==> n in s || (n in d && (src.None? || d[n].constraintType != Check)))
      && (n in GrownConstraints(src, d) ==>
            GrownConstraints(src, d)[n] == if n in d then d[n] else s[n])
  {
  }

  /** A constraint of a table that dest has, with its new foreign keys. */
  lemma ConstraintGrows(id: TableID, collation: string, src: Option<Table>, dest: TableDef,
                        added: map<string, ConstraintDef>, n: string)
    requires BothOk(src, dest) && (n in added <==> AddedTo(src, dest, n))
    requires n in added ==> added[n] == Live(dest.constraints)[n]
    ensures SameAt(Widened(id, collation, src, dest).constraints + added,
                   GrownConstraints(src, Live(dest.constraints)), n)
  {
    WidenedConstraintAt(id, collation, src, dest, n);
    GrownAt(src, Live(dest.constraints), n);
  }

  lemma TableGrows(id: TableID, collation: string, src: Option<Table>, dest: TableDef,
                   added: map<string, ConstraintDef>)
    requires BothOk(src, dest)
    requires forall n {:trigger n in added} ::
        (n in added <==> AddedTo(src, dest, n)) && (n in added ==> added[n] == Live(dest.constraints)[n])
    ensures var ts := Widened(id, collation, src, dest);
      TableGrown(collation, src, dest, ts.(constraints := ts.constraints + added))
  {
    forall n ensures SameAt(Widened(id, collation, src, dest).constraints + added,
                            GrownConstraints(src, Live(dest.constraints)), n) {
      ConstraintGrows(id, collation, src, dest, added, n);
    }
    ColumnsGrown(id, collation, src, dest);
    IndexesGrown(id, collation, src, dest);
  }

  lemma IndexesGrown(id: TableID, collation: string, src: Option<Table>, dest: TableDef)
    requires BothOk(src, dest)
    ensures Widened(id, collation, src, dest).indexes == OldState(src).indexes + StateOf(dest).indexes
  {
    if src.Some? {
      WidenedIndexes(id, collation, src.value, dest);
    } else {
      assert map[] + Live(dest.indexes) == Live(dest.indexes);
    }
  }

  lemma TableGrowsAt(src: Catalog, dest: Catalog, t: TableID)
    requires Given(src, dest) && ObjectAt(dest, t).Some?
    ensures var ts := WidenedAt(src, dest, t).value;
      TableGrown(src.defaultCollation, ObjectAt(src, t), ObjectAt(dest, t).value.def,
                 ts.(constraints := ts.constraints + KeysAt(Plan(src, dest, false).addFkeys, t)))
  {
    var s, d, added := ObjectAt(src, t), ObjectAt(dest, t).value.def, KeysAt(Plan(src, dest, false).addFkeys, t);
    assert BothOk(s, d);
    forall n {:trigger n in added}
      ensures (n in added <==> AddedTo(s, d, n)) && (n in added ==> added[n] == Live(d.constraints)[n])
    {
      AddedAt(src, dest, false, t, n);
    }
    TableGrows(t, src.defaultCollation, s, d, added);
  }

  lemma ColumnsGrown(id: TableID, collation: string, src: Option<Table>, dest: TableDef)
    requires BothOk(src, dest)
    ensures var columns := Widened(id, collation, src, dest).columns;
      && columns.Keys == OldState(src).columns.Keys + StateOf(dest).columns.Keys
      && ColumnsIncluded(collation, columns, Live(dest.columns))
      && forall n :: n in OldState(src).columns && n !in StateOf(dest).columns ==>
           columns[n] == OldState(src).columns[n]
  {
    if src.Some? {
      forall n {
        WidenedColumn(id, collation, src.value, dest, n);
      }
    } else {
      BeforeFkeysOfNew(collation, id, dest);
    }
  }

  /** The database has all that src has and all that dest has. */
  ghost predicate Grown(src: Catalog, dest: Catalog, db: Database) {
    && db.schemas == Names(src.schemas) + Names(dest.schemas) + {""}
    && forall t {:trigger t in db.tables} {:trigger ObjectAt(dest, t)} ::
      match ObjectAt(dest, t)
      case Some(d) => t in db.tables && TableGrown(src.defaultCollation, ObjectAt(src, t), d.def, db.tables[t])
      case None => TableAt(db, t) == if ObjectAt(src, t).Some? then Some(StateOf(ObjectAt(src, t).value.def)) else None
  }

  lemma WidestSchema(src: Catalog, dest: Catalog, s: string)
    requires Consistent(src) && Consistent(dest)
    ensures s in Names(src.schemas) + {""} + SetOf(Plan(src, dest, false).createSchemas)
       <==> s in Names(src.schemas) + Names(dest.schemas) + {""}
  {
    SetOfMember(Plan(src, dest, false).createSchemas, s);
    PlanContains(src, dest, false, CreatesSchema(s));
    NamedIsFound(src.schemas, s);
    NamedIsFound(dest.schemas, s);
  }

  lemma WidestHasSchemas(m: Migration, db: Database)
    ensures Widest(m, db).schemas == db.schemas + SetOf(m.createSchemas)
  {
    var db1 := db.(schemas := db.schemas + SetOf(m.createSchemas));
    WithTablesAt(db1, m.createTables, TableID("", ""));
    Untouched(WithTables(db1, m.createTables), m.alterTables, TableID("", ""));
    WithFkeysAt(WithAlters(WithTables(db1, m.createTables), m.alterTables), m.addFkeys, TableID("", ""));
  }

  lemma WidestSchemas(src: Catalog, dest: Catalog)
    requires Consistent(src) && Consistent(dest)
    ensures Widest(Plan(src, dest, false), Load(src)).schemas == Names(src.schemas) + Names(dest.schemas) + {""}
  {
    WidestHasSchemas(Plan(src, dest, false), Load(src));
    forall s ensures s in Names(src.schemas) + {""} + SetOf(Plan(src, dest, false).createSchemas)
       <==> s in Names(src.schemas) + Names(dest.schemas) + {""} {
      WidestSchema(src, dest, s);
    }
  }

  lemma WidestTable(src: Catalog, dest: Catalog, t: TableID)
    requires Consistent(src) && Consistent(dest)
    ensures TableAt(Widest(Plan(src, dest, false), Load(src)), t)
         == match WidenedAt(src, dest, t)
            case None => None
            case Some(ts) => Some(ts.(constraints := ts.constraints + KeysAt(Plan(src, dest, false).addFkeys, t)))
  {
    var m := Plan(src, dest, false);
    var db2 := WithTables(Load(src).(schemas := Load(src).schemas + SetOf(m.createSchemas)), m.createTables);
    CreatedTableAt(src, dest, t);
    AlteredTableAt(src, dest, db2, t);
    WithFkeysAt(WithAlters(db2, m.alterTables), m.addFkeys, t);
  }

  lemma WidestGrows(src: Catalog, dest: Catalog)
    requires Given(src, dest)
    ensures Grown(src, dest, Widest(Plan(src, dest, false), Load(src)))
  {
    var db := Widest(Plan(src, dest, false), Load(src));
    WidestSchemas(src, dest);
    forall t
      ensures match ObjectAt(dest, t)
        case Some(d) => t in db.tables && TableGrown(src.defaultCollation, ObjectAt(src, t), d.def, db.tables[t])
        case None =>
          TableAt(db, t) == if ObjectAt(src, t).Some? then Some(StateOf(ObjectAt(src, t).value.def)) else None
    {
      WidestTable(src, dest, t);
      if ObjectAt(dest, t).Some? {
        TableGrowsAt(src, dest, t);
      } else {
        FkeysAddedAt(src, dest, t);
        NothingAdded(WidenedAt(src, dest, t));
      }
    }
  }

  lemma NothingAdded(ts: Option<TableState>)
    ensures ts.Some? ==> ts.value.(constraints := ts.value.constraints + map[]) == ts.value
  {
    assert ts.Some? ==> ts.value.constraints + map[] == ts.value.constraints;
  }

  /** Without permission to drop objects, statements that go through leave just what src has and what dest has: all the
      tables, columns, indexes and constraints of dest as dest has them, and the rest as src has it. */
  lemma MigrationGrows(src: Catalog, dest: Catalog)
    requires Consistent(src) && Consistent(dest) && Agree(src, dest)
    requires ExecuteAll(Statements(Plan(src, dest, false)), Load(src)).Some?
    ensures Grown(src, dest, ExecuteAll(Statements(Plan(src, dest, false)), Load(src)).value)
  {
    StatementsLeave(src, dest, Load(src));
    WidestGrows(src, dest);
  }
}
