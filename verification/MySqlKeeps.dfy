/** A MySQL plan that may not drop objects loses nothing: whatever the database, once its
    statements have run, every schema, table, column, index and constraint is still there,
    and unchanged but for columns that are modified and primary keys moved to other columns. */
module MySqlKeeps {
  import opened Common
  import opened Catalogs
  import opened MySqlDatabase
  import opened MySqlPlan
  import opened MySqlSql
  import opened MySqlAlter
  import opened MySqlPlanItems
  import opened MySqlCorrect
  import opened MySqlConverge

  // ----- one table -----

  /** Everything of a table is in another, except for what happened to some constraints. */
  ghost predicate Within(a: TableState, b: TableState, moved: set<string>) {
    && a.columns.Keys <= b.columns.Keys
    && (forall n :: n in a.indexes ==> n in b.indexes && a.indexes[n] == b.indexes[n])
    && (forall n :: n in a.constraints && n !in moved ==> n in b.constraints && a.constraints[n] == b.constraints[n])
  }

  predicate Loses(c: Clause) {
    c.DropConstraint? || c.DropIndex? || c.DropColumn?
  }

  lemma {:induction false} AddsKeep(clauses: seq<Clause>, ts: TableState)
    requires ApplyAll(clauses, ts).Some? && forall c :: c in clauses ==> !Loses(c)
    ensures Within(ts, ApplyAll(clauses, ts).value, {})
  {
    if clauses == [] {
    } else {
      var init, last := clauses[..|clauses| - 1], clauses[|clauses| - 1];
      assert last in clauses && forall c :: c in init ==> c in clauses;
      AddsKeep(init, ts);
    }
  }

  lemma {:induction false} DropsKeep(cs: seq<Constraint>, ts: TableState)
    requires ApplyAll(ConstraintDrops(cs), ts).Some?
    ensures Within(ts, ApplyAll(ConstraintDrops(cs), ts).value, Names(cs))
  {
    if cs == [] {
    } else {
      var init, last := cs[..|cs| - 1], cs[|cs| - 1];
      assert ConstraintDrops(cs)[..|ConstraintDrops(cs)| - 1] == ConstraintDrops(init);
      DropsKeep(init, ts);
      assert Names(init) <= Names(cs);
    }
  }

  lemma {:induction false} AddIsThere(clauses: seq<Clause>, ts: TableState, c: Constraint)
    requires ApplyAll(clauses, ts).Some? && (forall x :: x in clauses ==> !Loses(x)) && AddConstraint(c) in clauses
    ensures c.name in ApplyAll(clauses, ts).value.constraints
  {
    var init, last := clauses[..|clauses| - 1], clauses[|clauses| - 1];
    assert clauses == init + [last];
    assert last in clauses && forall x :: x in init ==> x in clauses;
    if last != AddConstraint(c) {
      AddIsThere(init, ts, c);
    }
  }

  // ----- the clauses of an ALTER TABLE -----

  lemma {:induction false} NoLossInColumns(adds: seq<Column>, changes: seq<(Column, Column)>)
    ensures forall c :: c in ColumnAdds(adds) || c in ColumnChanges(changes) ==> !Loses(c)
    decreases |adds| + |changes|
  {
    if adds != [] {
      NoLossInColumns(adds[..|adds| - 1], changes);
    } else if changes != [] {
      NoLossInColumns(adds, changes[..|changes| - 1]);
    }
  }

  lemma {:induction false} NoLossInIndexes(indexes: seq<Index>)
    ensures forall c :: c in IndexAdds(indexes) ==> !Loses(c)
  {
    if indexes == [] {
    } else {
      NoLossInIndexes(indexes[..|indexes| - 1]);
    }
  }

  lemma {:induction false} NoLossInKeys(keys: seq<Constraint>)
    ensures forall c :: c in ConstraintAdds(keys) ==> !Loses(c)
    ensures forall k :: k in keys ==> AddConstraint(k) in ConstraintAdds(keys)
  {
    if keys == [] {
    } else {
      var init, last := keys[..|keys| - 1], keys[|keys| - 1];
      assert keys == init + [last];
      NoLossInKeys(init);
    }
  }

  /** No name of a constraint goes either. */
  ghost predicate Preserved(a: TableState, b: TableState, moved: set<string>) {
    Within(a, b, moved) && a.constraints.Keys <= b.constraints.Keys
  }

  /** The primary keys that dest has on other columns. */
  function Moved(src: Option<Table>, dest: Option<Table>): set<string> {
    if src.Some? && dest.Some? then Names(OldKeys(src.value.def.constraints, dest.value.def.constraints)) else {}
  }

  /** What is dropped comes back. */
  lemma MovedKeysReturn(src: seq<Constraint>, dest: seq<Constraint>, n: string)
    requires Plain(src) && Plain(dest) && n in Names(OldKeys(src, dest))
    ensures exists k :: k in NewKeys(src, dest) && k.name == n
  {
    OldKeysMember(src, dest);
    NewKeysMember(src, dest);
    LiveOfPart(src, OldKeys(src, dest), n);
    LiveOf(src);
    LiveOf(dest);
    var k := Object(n, false, Live(dest)[n]);
    assert k in dest && Fresh(k, src);
  }

  lemma AlterKeeps(id: TableID, collation: string, src: Table, dest: Table, ts: TableState)
    requires Plain(src.def.constraints) && Plain(dest.def.constraints)
    requires ApplyAll(Clauses(Alter(id, collation, src.def, dest.def, false)), ts).Some?
    ensures Preserved(ts, ApplyAll(Clauses(Alter(id, collation, src.def, dest.def, false)), ts).value,
                      Moved(Some(src), Some(dest)))
  {
    var a := Alter(id, collation, src.def, dest.def, false);
    var keys := OldKeys(src.def.constraints, dest.def.constraints);
    assert a.dropConstraints == keys;
    assert DropClauses(a) == ConstraintDrops(keys);
    var adds := AddClauses(a);
    ApplyAllConcat(DropClauses(a), adds, ts);
    var mid := ApplyAll(DropClauses(a), ts).value;
    DropsKeep(keys, ts);
    NoLossInColumns(a.addColumns, a.alterColumns);
    NoLossInIndexes(a.createIndexes);
    NoLossInKeys(a.addConstraints);
    AddsKeep(adds, mid);
    var after := ApplyAll(adds, mid).value;
    forall n | n in ts.constraints ensures n in after.constraints {
      if n in Names(keys) {
        MovedKeysReturn(src.def.constraints, dest.def.constraints, n);
        var k :| k in a.addConstraints && k.name == n;
        AddIsThere(adds, mid, k);
      }
    }
  }

  // ----- the whole database -----

  ghost predicate Keeping(src: Catalog, dest: Catalog, a: Database, b: Database) {
    && a.schemas <= b.schemas
    && forall t {:trigger t in a.tables} :: t in a.tables ==>
         t in b.tables && Preserved(a.tables[t], b.tables[t], Moved(ObjectAt(src, t), ObjectAt(dest, t)))
  }

  /** A statement of a plan without drops. */
  ghost predicate Mild(src: Catalog, dest: Catalog, s: MySqlDatabase.Statement) {
    match s
    case DropForeignKey(_, _) => false
    case DropSchemaIfExists(_) => false
    case DropTableIfExists(_) => false
    case AlterTable(t, clauses) =>
      && ObjectAt(src, t).Some? && ObjectAt(dest, t).Some?
      && clauses == Clauses(Alter(t, src.defaultCollation, ObjectAt(src, t).value.def, ObjectAt(dest, t).value.def,
                                  false))
    case _ => true
  }

  lemma MildKeeps(src: Catalog, dest: Catalog, s: MySqlDatabase.Statement, db: Database)
    requires PlainCatalog(src) && PlainCatalog(dest) && Mild(src, dest, s) && Execute(s, db).Some?
    ensures Keeping(src, dest, db, Execute(s, db).value)
  {
    if s.AlterTable? {
      AlterTableKeeps(src, dest, s, db);
    }
  }

  lemma AlterTableKeeps(src: Catalog, dest: Catalog, s: MySqlDatabase.Statement, db: Database)
    requires PlainCatalog(src) && PlainCatalog(dest) && s.AlterTable? && Mild(src, dest, s) && Execute(s, db).Some?
    ensures Keeping(src, dest, db, Execute(s, db).value)
  {
    PlainConstraints(src, s.table);
    PlainConstraints(dest, s.table);
    AlterKeeps(s.table, src.defaultCollation, ObjectAt(src, s.table).value, ObjectAt(dest, s.table).value,
               db.tables[s.table]);
  }

  lemma {:induction false} AllMildKeep(src: Catalog, dest: Catalog, ss: seq<MySqlDatabase.Statement>, db: Database)
    requires PlainCatalog(src) && PlainCatalog(dest) && (forall s :: s in ss ==> Mild(src, dest, s))
    requires ExecuteAll(ss, db).Some?
    ensures Keeping(src, dest, db, ExecuteAll(ss, db).value)
  {
    if ss == [] {
    } else {
      var init, last := ss[..|ss| - 1], ss[|ss| - 1];
      assert last in ss && forall s :: s in init ==> s in ss;
      AllMildKeep(src, dest, init, db);
      var mid := ExecuteAll(init, db).value;
      MildKeeps(src, dest, last, mid);
      KeepingTransitive(src, dest, db, mid, Execute(last, mid).value);
    }
  }

  lemma KeepingTransitive(src: Catalog, dest: Catalog, a: Database, b: Database, c: Database)
    requires Keeping(src, dest, a, b) && Keeping(src, dest, b, c)
    ensures Keeping(src, dest, a, c)
  {
    forall t | t in a.tables
        ensures t in c.tables && Preserved(a.tables[t], c.tables[t], Moved(ObjectAt(src, t), ObjectAt(dest, t))) {
      var moved := Moved(ObjectAt(src, t), ObjectAt(dest, t));
      assert Preserved(a.tables[t], b.tables[t], moved) && Preserved(b.tables[t], c.tables[t], moved);
    }
  }

  // ----- the statements of the plan -----

  lemma {:induction false} MildSchemas(src: Catalog, dest: Catalog, schemas: seq<string>)
    ensures forall s :: s in SchemaCreationsOf(schemas) ==> Mild(src, dest, s)
  {
    if schemas == [] {
    } else {
      MildSchemas(src, dest, schemas[..|schemas| - 1]);
    }
  }

  lemma {:induction false} MildIndexes(src: Catalog, dest: Catalog, id: TableID, indexes: seq<Index>)
    ensures forall s :: s in IndexCreationsOf(id, indexes) ==> Mild(src, dest, s)
  {
    if indexes == [] {
    } else {
      MildIndexes(src, dest, id, indexes[..|indexes| - 1]);
    }
  }

  lemma {:induction false} MildTables(src: Catalog, dest: Catalog, tables: seq<NewTable>)
    ensures forall s :: s in TableCreationsOf(tables) ==> Mild(src, dest, s)
  {
    if tables == [] {
    } else {
      var t := tables[|tables| - 1];
      MildTables(src, dest, tables[..|tables| - 1]);
      MildIndexes(src, dest, t.id, t.table.def.indexes);
    }
  }

  lemma {:induction false} MildAlters(src: Catalog, dest: Catalog, alters: seq<AlterTable>)
    requires forall a :: a in alters ==> Mild(src, dest, MySqlDatabase.AlterTable(a.id, Clauses(a)))
    ensures forall s :: s in AlterationsOf(alters) ==> Mild(src, dest, s)
  {
    if alters == [] {
    } else {
      assert forall a :: a in alters[..|alters| - 1] ==> a in alters;
      MildAlters(src, dest, alters[..|alters| - 1]);
    }
  }

  lemma {:induction false} MildFkeys(src: Catalog, dest: Catalog, fkeys: seq<TableKey>)
    ensures forall s :: s in FkeyAddsOf(fkeys) ==> Mild(src, dest, s)
  {
    if fkeys == [] {
    } else {
      MildFkeys(src, dest, fkeys[..|fkeys| - 1]);
    }
  }

  lemma NothingDropped(src: Catalog, dest: Catalog)
    requires PlainCatalog(src) && PlainCatalog(dest)
    ensures var m := Plan(src, dest, false); m.dropFkeys == [] && m.dropSchemas == [] && m.dropTables == []
  {
    var m := Plan(src, dest, false);
    if m.dropFkeys != [] {
      PlanContains(src, dest, false, DropsFkey(m.dropFkeys[0]));
    }
    if m.dropSchemas != [] {
      PlanContains(src, dest, false, DropsSchema(m.dropSchemas[0]));
    }
    if m.dropTables != [] {
      PlanContains(src, dest, false, DropsTable(m.dropTables[0]));
    }
  }

  lemma PlanIsMild(src: Catalog, dest: Catalog)
    requires PlainCatalog(src) && PlainCatalog(dest)
    ensures forall s :: s in Statements(Plan(src, dest, false)) ==> Mild(src, dest, s)
  {
    var m := Plan(src, dest, false);
    NothingDropped(src, dest);
    MildSchemas(src, dest, m.createSchemas);
    MildTables(src, dest, m.createTables);
    forall a | a in m.alterTables ensures Mild(src, dest, MySqlDatabase.AlterTable(a.id, Clauses(a))) {
      PlanContains(src, dest, false, Alters(a));
    }
    MildAlters(src, dest, m.alterTables);
    MildFkeys(src, dest, m.addFkeys);
  }

  /** Without permission to drop objects, a migration that goes through, on any database,
      keeps every schema, table, column, index and constraint. */
  lemma NothingIsLost(src: Catalog, dest: Catalog, db: Database)
    requires PlainCatalog(src) && PlainCatalog(dest)
    requires ExecuteAll(Statements(Plan(src, dest, false)), db).Some?
    ensures Keeping(src, dest, db, ExecuteAll(Statements(Plan(src, dest, false)), db).value)
  {
    PlanIsMild(src, dest);
    AllMildKeep(src, dest, Statements(Plan(src, dest, false)), db);
  }

  // ----- columns that are not dropped -----

  const WIDE := TableDef([Object("a", false, INT), Object("b", false, INT)], [], [])
  const NARROW := TableDef([Object("a", false, INT)], [], [])
  const INT := ColumnDef("INT", "", false, false, "", "")

  function OneTable(t: TableDef): Catalog {
    Catalog("", [Object("s", false, [Object("t", false, t)])])
  }

  lemma OneTableAt(t: TableDef, id: TableID)
    ensures ObjectAt(OneTable(t), id) == if id == TableID("s", "t") then Some(Object("t", false, t)) else None
  {
    var c := OneTable(t);
    FindOne(c.schemas[0], id.schema);
    FindOne(c.schemas[0].def[0], id.name);
  }

  lemma FindOne<T>(x: Object<T>, name: string)
    requires !x.ignore
    ensures Find([x], name) == if name == x.name then Some(x) else None
  {
    assert [x][..0] == [];
  }

  lemma BareTableIsOk(columns: seq<Column>)
    requires Plain(columns) && forall c :: c in columns ==> c.def.identity == ""
    ensures TableOk(TableDef(columns, [], []))
  {
    LiveOf(columns);
  }

  lemma OneTableIsConsistent(columns: seq<Column>)
    requires TableOk(TableDef(columns, [], []))
    ensures Consistent(OneTable(TableDef(columns, [], [])))
  {
    var t := TableDef(columns, [], []);
    var c := OneTable(t);
    assert PlainCatalog(c);
    forall id | ObjectAt(c, id).Some? ensures TableOk(ObjectAt(c, id).value.def) {
      OneTableAt(t, id);
    }
    forall t, n ensures !IsFkeyAt(Load(c), t, n) {
      OneTableAt(TableDef(columns, [], []), t);
      LoadAt(c, t);
    }
  }

  lemma NarrowIsSettled()
    ensures SettledTable("", WIDE, NARROW) && "b" in Live(WIDE.columns) && "b" !in Live(NARROW.columns)
  {
    LiveOf(WIDE.columns);
    LiveOf(NARROW.columns);
    assert WIDE.columns[0] in WIDE.columns && WIDE.columns[1] in WIDE.columns && NARROW.columns[0] in NARROW.columns;
    assert NARROW.columns[..0] == [];
  }

  lemma OneTableSettled(a: TableDef, b: TableDef)
    requires SettledTable("", a, b)
    ensures Settled(OneTable(a), OneTable(b))
  {
    forall s ensures Find(OneTable(a).schemas, s).Some? <==> Find(OneTable(b).schemas, s).Some? {
      FindOne(OneTable(a).schemas[0], s);
      FindOne(OneTable(b).schemas[0], s);
    }
    forall id
      ensures ObjectAt(OneTable(a), id) == if id == TableID("s", "t") then Some(Object("t", false, a)) else None
      ensures ObjectAt(OneTable(b), id) == if id == TableID("s", "t") then Some(Object("t", false, b)) else None
    {
      OneTableAt(a, id);
      OneTableAt(b, id);
    }
  }

  lemma OneTableAgrees(a: TableDef, b: TableDef)
    requires AgreeTable(StateOf(a), StateOf(b))
    ensures Agree(OneTable(a), OneTable(b)) && Find(OneTable(a).schemas, "").None?
  {
    FindOne(OneTable(a).schemas[0], "");
    forall id | ObjectAt(OneTable(a), id).Some? && ObjectAt(OneTable(b), id).Some?
      ensures AgreeTable(StateOf(ObjectAt(OneTable(a), id).value.def), StateOf(ObjectAt(OneTable(b), id).value.def))
    {
      OneTableAt(a, id);
      OneTableAt(b, id);
    }
  }

  lemma ConsistentIsPlain(c: Catalog)
    requires Consistent(c)
    ensures AllPlain(c)
  {
    forall id | ObjectAt(c, id).Some? ensures PlainTable(ObjectAt(c, id).value.def) {
      assert TableOk(ObjectAt(c, id).value.def);
    }
  }

  /** A table that only loses a column is left as it is. */
  lemma DroppedColumnStays()
    ensures Consistent(OneTable(WIDE)) && Consistent(OneTable(NARROW)) && Agree(OneTable(WIDE), OneTable(NARROW))
    ensures Plan(OneTable(WIDE), OneTable(NARROW), true) == NOTHING
    ensures "b" in Live(WIDE.columns) && "b" !in Live(NARROW.columns)
  {
    NarrowIsSettled();
    BareTableIsOk(WIDE.columns);
    BareTableIsOk(NARROW.columns);
    OneTableIsConsistent(WIDE.columns);
    OneTableIsConsistent(NARROW.columns);
    ConsistentIsPlain(OneTable(WIDE));
    ConsistentIsPlain(OneTable(NARROW));
    OneTableSettled(WIDE, NARROW);
    OneTableAgrees(WIDE, NARROW);
    PlanIsEmptyExactly(OneTable(WIDE), OneTable(NARROW));
  }
}
