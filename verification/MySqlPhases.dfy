/** Running a migration phase by phase: what each phase leaves, when its statements go through. */
module MySqlPhases {
  import opened Common
  import opened Catalogs
  import opened MySqlPlan
  import opened MySqlSql
  import opened MySqlDatabase
  import opened MySqlAlter

  lemma ExecuteAllSnoc(ss: seq<MySqlDatabase.Statement>, s: MySqlDatabase.Statement, db: Database, mid: Database)
    requires ExecuteAll(ss, db) == Some(mid)
    ensures ExecuteAll(ss + [s], db) == Execute(s, mid)
  {
    assert (ss + [s])[..|ss|] == ss;
  }

  // ----- foreign keys -----

  ghost predicate DistinctKeys(fkeys: seq<TableKey>) {
    forall i, k :: 0 <= i < k < |fkeys| ==>
        fkeys[i].table != fkeys[k].table || fkeys[i].constraint.name != fkeys[k].constraint.name
  }

  /** The names that a list of foreign keys has in one table. */
  function KeyNames(fkeys: seq<TableKey>, t: TableID): set<string> {
    if fkeys == [] then {}
    else
      var last := fkeys[|fkeys| - 1];
      KeyNames(fkeys[..|fkeys| - 1], t) + (if last.table == t then {last.constraint.name} else {})
  }

  lemma {:induction false} KeyNamesMember(fkeys: seq<TableKey>, t: TableID, name: string)
    ensures name in KeyNames(fkeys, t) <==>
        exists i :: 0 <= i < |fkeys| && fkeys[i].table == t && fkeys[i].constraint.name == name
  {
    if fkeys == [] {
    } else {
      var init := fkeys[..|fkeys| - 1];
      KeyNamesMember(init, t, name);
      if i: nat :| i < |init| && init[i].table == t && init[i].constraint.name == name {
        assert fkeys[i] == init[i];
      }
      if i: nat :| i < |fkeys| && fkeys[i].table == t && fkeys[i].constraint.name == name {
        assert i < |init| ==> init[i] == fkeys[i];
      }
    }
  }

  function WithoutKeys(ts: TableState, names: set<string>): TableState {
    ts.(constraints := ts.constraints - names)
  }

  /** The database without some foreign keys. */
  function WithoutFkeys(db: Database, fkeys: seq<TableKey>): Database {
    if fkeys == [] then db
    else
      var mid, last := WithoutFkeys(db, fkeys[..|fkeys| - 1]), fkeys[|fkeys| - 1];
      if last.table in mid.tables
      then mid.(tables := mid.tables[last.table := WithoutKeys(mid.tables[last.table], {last.constraint.name})])
      else mid
  }

  lemma {:induction false} WithoutFkeysAt(db: Database, fkeys: seq<TableKey>, t: TableID)
    ensures WithoutFkeys(db, fkeys).schemas == db.schemas
    ensures t in WithoutFkeys(db, fkeys).tables <==> t in db.tables
    ensures t in db.tables ==> WithoutFkeys(db, fkeys).tables[t] == WithoutKeys(db.tables[t], KeyNames(fkeys, t))
  {
    if fkeys == [] {
      assert t in db.tables ==> db.tables[t].constraints - {} == db.tables[t].constraints;
    } else {
      var init, last := fkeys[..|fkeys| - 1], fkeys[|fkeys| - 1];
      WithoutFkeysAt(db, init, t);
      if t in db.tables && t == last.table {
        assert db.tables[t].constraints - KeyNames(init, t) - {last.constraint.name}
            == db.tables[t].constraints - KeyNames(fkeys, t);
      }
    }
  }

  ghost predicate IsFkeyOf(db: Database, k: TableKey) {
    && k.table in db.tables && k.constraint.name in db.tables[k.table].constraints
    && db.tables[k.table].constraints[k.constraint.name].constraintType == ForeignKey
  }

  lemma {:induction false} FkeyDropsRun(fkeys: seq<TableKey>, db: Database)
    requires DistinctKeys(fkeys) && forall k :: k in fkeys ==> IsFkeyOf(db, k)
    ensures ExecuteAll(FkeyDropsOf(fkeys), db) == Some(WithoutFkeys(db, fkeys))
  {
    if fkeys == [] {
    } else {
      var init, last := fkeys[..|fkeys| - 1], fkeys[|fkeys| - 1];
      assert forall k :: k in init ==> k in fkeys;
      FkeyDropsRun(init, db);
      KeyNamesMember(init, last.table, last.constraint.name);
      WithoutFkeysAt(db, init, last.table);
      assert IsFkeyOf(db, last);
      ExecuteAllSnoc(FkeyDropsOf(init), DropForeignKey(last.table, last.constraint.name), db, WithoutFkeys(db, init));
    }
  }

  /** The foreign keys that a list has in one table, by name. */
  function KeysAt(fkeys: seq<TableKey>, t: TableID): map<string, ConstraintDef> {
    if fkeys == [] then map[]
    else
      var last := fkeys[|fkeys| - 1];
      if last.table == t then KeysAt(fkeys[..|fkeys| - 1], t)[last.constraint.name := last.constraint.def]
      else KeysAt(fkeys[..|fkeys| - 1], t)
  }

  lemma {:induction false} KeysAtMember(fkeys: seq<TableKey>, t: TableID, name: string)
    requires DistinctKeys(fkeys)
    ensures name in KeysAt(fkeys, t) <==>
        exists i :: 0 <= i < |fkeys| && fkeys[i].table == t && fkeys[i].constraint.name == name
    ensures forall i :: 0 <= i < |fkeys| && fkeys[i].table == t && fkeys[i].constraint.name == name ==>
              name in KeysAt(fkeys, t) && KeysAt(fkeys, t)[name] == fkeys[i].constraint.def
  {
    if fkeys == [] {
    } else {
      var init := fkeys[..|fkeys| - 1];
      KeysAtMember(init, t, name);
      if i: nat :| i < |init| && init[i].table == t && init[i].constraint.name == name {
        assert fkeys[i] == init[i];
      }
      forall i | 0 <= i < |init| ensures init[i] == fkeys[i] {
      }
    }
  }

  /** The database with more foreign keys. */
  function WithFkeys(db: Database, fkeys: seq<TableKey>): Database {
    if fkeys == [] then db
    else
      var mid, last := WithFkeys(db, fkeys[..|fkeys| - 1]), fkeys[|fkeys| - 1];
      var name, def := last.constraint.name, last.constraint.def;
      if last.table in mid.tables
      then mid.(tables := mid.tables[last.table := mid.tables[last.table].(
                                       constraints := mid.tables[last.table].constraints[name := def])])
      else mid
  }

  lemma {:induction false} WithFkeysAt(db: Database, fkeys: seq<TableKey>, t: TableID)
    ensures WithFkeys(db, fkeys).schemas == db.schemas
    ensures t in WithFkeys(db, fkeys).tables <==> t in db.tables
    ensures t in db.tables ==>
              WithFkeys(db, fkeys).tables[t]
                  == db.tables[t].(constraints := db.tables[t].constraints + KeysAt(fkeys, t))
  {
    if fkeys == [] {
      assert t in db.tables ==> db.tables[t].constraints + map[] == db.tables[t].constraints;
    } else {
      var init, last := fkeys[..|fkeys| - 1], fkeys[|fkeys| - 1];
      WithFkeysAt(db, init, t);
      if t in db.tables && t == last.table {
        assert (db.tables[t].constraints + KeysAt(init, t))[last.constraint.name := last.constraint.def]
            == db.tables[t].constraints + KeysAt(fkeys, t);
      }
    }
  }

  ghost predicate CanAdd(db: Database, k: TableKey) {
    && k.table in db.tables && k.constraint.name !in db.tables[k.table].constraints
       && k.constraint.def.constraintType == ForeignKey
    && Has(db.tables[k.table], k.constraint.def.columns)
    && k.constraint.def.references in db.tables
    && Supports(db.tables[k.constraint.def.references], k.constraint.def.referencesColumns)
  }

  lemma SupportsMore(ts: TableState, more: map<string, ConstraintDef>, columns: seq<string>)
    requires Supports(ts, columns) && ts.constraints.Keys !! more.Keys
    ensures Supports(ts.(constraints := ts.constraints + more), columns)
  {
    var after := ts.(constraints := ts.constraints + more);
    if n :| n in ts.constraints && IsKeyDef(ts.constraints[n]) && ts.constraints[n].columns == columns {
      assert n in after.constraints;
    }
  }

  lemma CanStillAdd(init: seq<TableKey>, last: TableKey, db: Database)
    requires DistinctKeys(init + [last]) && CanAdd(db, last) && forall k :: k in init ==> CanAdd(db, k)
    ensures CanAdd(WithFkeys(db, init), last)
  {
    var u := last.constraint.def.references;
    WithFkeysAt(db, init, last.table);
    WithFkeysAt(db, init, u);
    forall i | 0 <= i < |init| ensures init[i].table != last.table || init[i].constraint.name != last.constraint.name {
      assert (init + [last])[i] == init[i] && (init + [last])[|init|] == last;
    }
    assert DistinctKeys(init) by {
      assert forall i :: 0 <= i < |init| ==> (init + [last])[i] == init[i];
    }
    KeysAtMember(init, last.table, last.constraint.name);
    forall n | n in KeysAt(init, u) ensures n !in db.tables[u].constraints {
      KeysAtMember(init, u, n);
      var i: nat :| i < |init| && init[i].table == u && init[i].constraint.name == n;
      assert CanAdd(db, init[i]);
    }
    SupportsMore(db.tables[u], KeysAt(init, u), last.constraint.def.referencesColumns);
  }

  lemma LastCanBeAdded(fkeys: seq<TableKey>, db: Database)
    requires fkeys != [] && DistinctKeys(fkeys) && forall k :: k in fkeys ==> CanAdd(db, k)
    ensures CanAdd(WithFkeys(db, fkeys[..|fkeys| - 1]), fkeys[|fkeys| - 1])
  {
    var init, last := fkeys[..|fkeys| - 1], fkeys[|fkeys| - 1];
    assert fkeys == init + [last];
    CanStillAdd(init, last, db);
  }

  lemma {:induction false} FkeyAddsRun(fkeys: seq<TableKey>, db: Database)
    requires DistinctKeys(fkeys) && forall k :: k in fkeys ==> CanAdd(db, k)
    ensures ExecuteAll(FkeyAddsOf(fkeys), db) == Some(WithFkeys(db, fkeys))
  {
    if fkeys == [] {
    } else {
      var init, last := fkeys[..|fkeys| - 1], fkeys[|fkeys| - 1];
      FkeyAddsRun(init, db);
      LastCanBeAdded(fkeys, db);
      ExecuteAllSnoc(FkeyAddsOf(init), AddForeignKey(last.table, last.constraint), db, WithFkeys(db, init));
    }
  }

  // ----- schemas and tables that go -----

  function OutsideOf(tables: map<TableID, TableState>, schemas: seq<string>): map<TableID, TableState> {
    map t | t in tables && t.schema !in schemas :: tables[t]
  }

  lemma OutsideLast(tables: map<TableID, TableState>, schemas: seq<string>)
    requires schemas != []
    ensures var rest := OutsideOf(tables, schemas[..|schemas| - 1]);
      (map t | t in rest && t.schema != schemas[|schemas| - 1] :: rest[t]) == OutsideOf(tables, schemas)
  {
    assert schemas == schemas[..|schemas| - 1] + [schemas[|schemas| - 1]];
  }

  lemma {:induction false} SchemaDropsRun(schemas: seq<string>, db: Database)
    requires forall t, n, u :: References(db, t, n, u) ==> u.schema !in schemas
    ensures ExecuteAll(SchemaDropsOf(schemas), db)
        == Some(Database(db.schemas - SetOf(schemas), OutsideOf(db.tables, schemas)))
  {
    if schemas == [] {
      assert db.schemas - SetOf(schemas) == db.schemas;
      assert OutsideOf(db.tables, []) == db.tables;
    } else {
      var init, last := schemas[..|schemas| - 1], schemas[|schemas| - 1];
      SchemaDropsRun(init, db);
      var mid := Database(db.schemas - SetOf(init), OutsideOf(db.tables, init));
      forall t, n, u | References(mid, t, n, u) ensures u.schema != last {
        assert References(db, t, n, u);
      }
      ExecuteAllSnoc(SchemaDropsOf(init), DropSchemaIfExists(last), db, mid);
      assert db.schemas - SetOf(init) - {last} == db.schemas - SetOf(schemas);
      OutsideLast(db.tables, schemas);
    }
  }

  function SetOf<T>(xs: seq<T>): set<T> {
    if xs == [] then {} else SetOf(xs[..|xs| - 1]) + {xs[|xs| - 1]}
  }

  lemma {:induction false} SetOfMember<T>(xs: seq<T>, x: T)
    ensures x in SetOf(xs) <==> x in xs
  {
    if xs == [] {
    } else {
      SetOfMember(xs[..|xs| - 1], x);
      assert xs == xs[..|xs| - 1] + [xs[|xs| - 1]];
    }
  }

  lemma {:induction false} SchemaCreationsRun(schemas: seq<string>, db: Database)
    ensures ExecuteAll(SchemaCreationsOf(schemas), db) == Some(db.(schemas := db.schemas + SetOf(schemas)))
  {
    if schemas == [] {
      assert db.schemas + SetOf(schemas) == db.schemas;
    } else {
      var init, last := schemas[..|schemas| - 1], schemas[|schemas| - 1];
      SchemaCreationsRun(init, db);
      ExecuteAllSnoc(SchemaCreationsOf(init), CreateSchemaIfNotExists(last), db,
                     db.(schemas := db.schemas + SetOf(init)));
      assert db.schemas + SetOf(init) + {last} == db.schemas + SetOf(schemas);
    }
  }

  lemma {:induction false} TableDropsRun(tables: seq<TableID>, db: Database)
    requires forall t, n, u :: References(db, t, n, u) ==> u !in tables
    ensures ExecuteAll(TableDropsOf(tables), db) == Some(db.(tables := db.tables - SetOf(tables)))
  {
    if tables == [] {
      assert db.tables - SetOf(tables) == db.tables;
    } else {
      var init, last := tables[..|tables| - 1], tables[|tables| - 1];
      assert tables == init + [last];
      TableDropsRun(init, db);
      var mid := db.(tables := db.tables - SetOf(init));
      forall t, n | References(mid, t, n, last) ensures false {
        assert References(db, t, n, last);
      }
      ExecuteAllSnoc(TableDropsOf(init), DropTableIfExists(last), db, mid);
      assert (db.tables - SetOf(init)) - {last} == db.tables - SetOf(tables);
    }
  }

  // ----- tables that come -----

  /** The table that its CREATE TABLE and CREATE INDEX statements make. */
  function CreatedState(d: TableDef): TableState {
    TableState(StoredColumns(d.columns), Live(NotFkeys(d.constraints)), Live(d.indexes))
  }

  lemma {:induction false} WrittenAll<T>(xs: seq<Object<T>>)
    requires Plain(xs)
    ensures Written(xs) == xs
  {
    if xs == [] {
    } else {
      WrittenAll(xs[..|xs| - 1]);
    }
  }

  lemma {:induction false} NotFkeysPart(cs: seq<Constraint>, n: string)
    requires Plain(cs)
    ensures n in Live(NotFkeys(cs)) <==> n in Live(cs) && Live(cs)[n].constraintType != ForeignKey
    ensures n in Live(NotFkeys(cs)) ==> Live(NotFkeys(cs))[n] == Live(cs)[n]
  {
    if cs == [] {
    } else {
      var init, last := cs[..|cs| - 1], cs[|cs| - 1];
      WithLast(map[], cs);
      assert map[] + Live(init) == Live(init);
      NotFkeysPart(init, n);
      if last.def.constraintType == ForeignKey {
        assert NotFkeys(cs) == NotFkeys(init);
      } else {
        assert NotFkeys(cs) == NotFkeys(init) + [last];
        assert (NotFkeys(init) + [last])[..|NotFkeys(init)|] == NotFkeys(init);
      }
    }
  }

  lemma {:induction false} IndexCreationsRun(id: TableID, xs: seq<Index>, db: Database, after: TableState)
    requires id in db.tables && ApplyAll(IndexAdds(xs), db.tables[id]) == Some(after)
    ensures ExecuteAll(IndexCreationsOf(id, xs), db) == Some(db.(tables := db.tables[id := after]))
  {
    if xs == [] {
      assert db.tables[id := after] == db.tables;
    } else {
      var init, last := xs[..|xs| - 1], xs[|xs| - 1];
      assert IndexAdds(xs)[..|IndexAdds(xs)| - 1] == IndexAdds(init);
      var mid := ApplyAll(IndexAdds(init), db.tables[id]).value;
      IndexCreationsRun(id, init, db, mid);
      ExecuteAllSnoc(IndexCreationsOf(id, init), CreateIndex(id, last), db, db.(tables := db.tables[id := mid]));
      assert db.tables[id := mid][id := after] == db.tables[id := after];
    }
  }

  lemma NewStateFits(d: TableDef)
    requires TableOk(d)
    ensures var ts := NewState(Written(d.columns), NotFkeys(d.constraints));
      && ts == CreatedState(d).(indexes := map[])
      && OnePrimaryKey(ts) && forall n :: n in ts.constraints ==> Has(ts, ts.constraints[n].columns)
  {
    WrittenAll(d.columns);
    var ts := NewState(Written(d.columns), NotFkeys(d.constraints));
    forall n | n in ts.constraints
      ensures Has(ts, ts.constraints[n].columns)
      ensures IsPrimaryKey(ts, n) ==> n in StateOf(d).constraints && IsPrimaryKey(StateOf(d), n)
    {
      NotFkeysPart(d.constraints, n);
      assert Has(StateOf(d), StateOf(d).constraints[n].columns);
    }
  }

  lemma NewIndexesFit(d: TableDef)
    requires TableOk(d)
    ensures ApplyAll(IndexAdds(d.indexes), CreatedState(d).(indexes := map[])) == Some(CreatedState(d))
  {
    var ts := CreatedState(d).(indexes := map[]);
    LiveOf(d.indexes);
    forall x | x in d.indexes ensures MySqlDatabase.Has(ts, x.def.columns) {
      assert MySqlDatabase.Has(StateOf(d), StateOf(d).indexes[x.name].columns);
    }
    IndexAddsRun(d.indexes, ts);
    assert map[] + Live(d.indexes) == Live(d.indexes);
  }

  lemma NewTableExecutes(t: NewTable, db: Database)
    requires t.id.schema in db.schemas && t.id !in db.tables && TableOk(t.table.def)
    ensures var d := t.table.def;
      Execute(CreateTable(t.id, Written(d.columns), NotFkeys(d.constraints)), db)
          == Some(db.(tables := db.tables[t.id := CreatedState(d).(indexes := map[])]))
  {
    NewStateFits(t.table.def);
  }

  lemma CreationRun(t: NewTable, db: Database)
    requires t.id.schema in db.schemas && t.id !in db.tables && TableOk(t.table.def)
    ensures ExecuteAll(CreationOf(t), db) == Some(db.(tables := db.tables[t.id := CreatedState(t.table.def)]))
  {
    var d := t.table.def;
    var create := CreateTable(t.id, Written(d.columns), NotFkeys(d.constraints));
    var mid := db.(tables := db.tables[t.id := CreatedState(d).(indexes := map[])]);
    NewTableExecutes(t, db);
    ExecuteAllSnoc([], create, db, db);
    assert [] + [create] == [create];
    NewIndexesFit(d);
    IndexCreationsRun(t.id, d.indexes, mid, CreatedState(d));
    ExecuteAllConcat([create], IndexCreationsOf(t.id, d.indexes), db);
    assert mid.tables[t.id := CreatedState(d)] == db.tables[t.id := CreatedState(d)];
  }

  ghost predicate DistinctTables(tables: seq<NewTable>) {
    forall i, k :: 0 <= i < k < |tables| ==> tables[i].id != tables[k].id
  }

  /** The database with more tables. */
  function WithTables(db: Database, tables: seq<NewTable>): Database {
    if tables == [] then db
    else
      var mid, last := WithTables(db, tables[..|tables| - 1]), tables[|tables| - 1];
      mid.(tables := mid.tables[last.id := CreatedState(last.table.def)])
  }

  predicate IsCreated(tables: seq<NewTable>, t: TableID) {
    exists i :: 0 <= i < |tables| && tables[i].id == t
  }

  lemma IsCreatedLast(tables: seq<NewTable>, t: TableID)
    requires tables != []
    ensures IsCreated(tables, t) <==> IsCreated(tables[..|tables| - 1], t) || tables[|tables| - 1].id == t
  {
    var init := tables[..|tables| - 1];
    if IsCreated(init, t) {
      var i: nat :| i < |init| && init[i].id == t;
      assert tables[i].id == t;
    }
    if IsCreated(tables, t) {
      var i: nat :| i < |tables| && tables[i].id == t;
      assert i < |init| ==> init[i] == tables[i];
    }
  }

  lemma {:induction false} WithTablesAt(db: Database, tables: seq<NewTable>, t: TableID)
    ensures WithTables(db, tables).schemas == db.schemas
    ensures t in WithTables(db, tables).tables <==> t in db.tables || IsCreated(tables, t)
    ensures t in db.tables && !IsCreated(tables, t) ==> WithTables(db, tables).tables[t] == db.tables[t]
  {
    if tables == [] {
    } else {
      WithTablesAt(db, tables[..|tables| - 1], t);
      IsCreatedLast(tables, t);
    }
  }

  lemma {:induction false} CreatedIs(db: Database, tables: seq<NewTable>, i: nat)
    requires DistinctTables(tables) && i < |tables|
    ensures tables[i].id in WithTables(db, tables).tables
    ensures WithTables(db, tables).tables[tables[i].id] == CreatedState(tables[i].table.def)
  {
    if i == |tables| - 1 {
    } else {
      CreatedIs(db, tables[..|tables| - 1], i);
    }
  }

  lemma {:induction false} TableCreationsRun(tables: seq<NewTable>, db: Database)
    requires DistinctTables(tables)
    requires forall t :: t in tables ==> t.id.schema in db.schemas && t.id !in db.tables && TableOk(t.table.def)
    ensures ExecuteAll(TableCreationsOf(tables), db) == Some(WithTables(db, tables))
  {
    if tables == [] {
    } else {
      var init, last := tables[..|tables| - 1], tables[|tables| - 1];
      assert forall t :: t in init ==> t in tables;
      TableCreationsRun(init, db);
      WithTablesAt(db, init, last.id);
      assert last in tables;
      CreationRun(last, WithTables(db, init));
      ExecuteAllConcat(TableCreationsOf(init), CreationOf(last), db);
    }
  }

  // ----- tables that change -----

  ghost predicate DistinctAlters(alters: seq<AlterTable>) {
    forall i, k :: 0 <= i < k < |alters| ==> alters[i].id != alters[k].id
  }

  function WithAlters(db: Database, alters: seq<AlterTable>): Database {
    if alters == [] then db
    else
      var mid, last := WithAlters(db, alters[..|alters| - 1]), alters[|alters| - 1];
      if last.id in mid.tables then mid.(tables := mid.tables[last.id := AfterAlter(mid.tables[last.id], last)])
          else mid
  }

  lemma {:induction false} Untouched(db: Database, alters: seq<AlterTable>, t: TableID)
    ensures WithAlters(db, alters).schemas == db.schemas
    ensures t in WithAlters(db, alters).tables <==> t in db.tables
    ensures t in db.tables && (forall i :: 0 <= i < |alters| ==> alters[i].id != t) ==>
        WithAlters(db, alters).tables[t] == db.tables[t]
  {
    if alters == [] {
    } else {
      var init := alters[..|alters| - 1];
      Untouched(db, init, t);
      assert forall i :: 0 <= i < |init| ==> init[i] == alters[i];
    }
  }

  lemma {:induction false} Touched(db: Database, alters: seq<AlterTable>, i: nat)
    requires DistinctAlters(alters) && i < |alters| && alters[i].id in db.tables
    ensures alters[i].id in WithAlters(db, alters).tables
    ensures WithAlters(db, alters).tables[alters[i].id] == AfterAlter(db.tables[alters[i].id], alters[i])
  {
    var init := alters[..|alters| - 1];
    Untouched(db, init, alters[i].id);
    if i == |alters| - 1 {
      assert forall k :: 0 <= k < |init| ==> init[k] == alters[k];
    } else {
      assert init[i] == alters[i];
      Touched(db, init, i);
    }
  }

  lemma WithAltersAt(db: Database, alters: seq<AlterTable>, t: TableID)
    requires DistinctAlters(alters)
    ensures WithAlters(db, alters).schemas == db.schemas
    ensures t in WithAlters(db, alters).tables <==> t in db.tables
    ensures forall i :: 0 <= i < |alters| && alters[i].id == t && t in db.tables ==>
              WithAlters(db, alters).tables[t] == AfterAlter(db.tables[t], alters[i])
    ensures t in db.tables && (forall i :: 0 <= i < |alters| ==> alters[i].id != t) ==>
        WithAlters(db, alters).tables[t] == db.tables[t]
  {
    Untouched(db, alters, t);
    forall i | 0 <= i < |alters| && alters[i].id == t && t in db.tables
      ensures WithAlters(db, alters).tables[t] == AfterAlter(db.tables[t], alters[i])
    {
      Touched(db, alters, i);
    }
  }

  /** The same foreign keys in two states of a table. */
  ghost predicate SameFkeys(a: TableState, b: TableState) {
    forall n :: (n in a.constraints && a.constraints[n].constraintType == ForeignKey)
                || (n in b.constraints && b.constraints[n].constraintType == ForeignKey)
                ==> n in a.constraints && n in b.constraints && a.constraints[n] == b.constraints[n]
  }

  /** An ALTER TABLE that goes through, and leaves the table fit for every foreign key to it. */
  ghost predicate AlterFits(db: Database, a: AlterTable) {
    && a.id in db.tables
    && ApplyAll(Clauses(a), db.tables[a.id]) == Some(AfterAlter(db.tables[a.id], a))
    && SameFkeys(db.tables[a.id], AfterAlter(db.tables[a.id], a))
    && forall t, n :: References(db, t, n, a.id) ==>
         Supports(AfterAlter(db.tables[a.id], a), db.tables[t].constraints[n].referencesColumns)
  }

  lemma AlteredReferences(db: Database, alters: seq<AlterTable>, t: TableID, n: string, u: TableID)
    requires DistinctAlters(alters) && forall a :: a in alters ==> AlterFits(db, a)
    ensures References(WithAlters(db, alters), t, n, u) <==> References(db, t, n, u)
    ensures References(db, t, n, u) ==> WithAlters(db, alters).tables[t].constraints[n] == db.tables[t].constraints[n]
  {
    WithAltersAt(db, alters, t);
    if i: nat :| i < |alters| && alters[i].id == t {
      assert AlterFits(db, alters[i]);
    }
  }

  lemma AlteredSupported(db: Database, alters: seq<AlterTable>, last: AlterTable)
    requires DistinctAlters(alters) && last in alters && forall a :: a in alters ==> AlterFits(db, a)
    ensures last.id in WithAlters(db, alters).tables && Supported(WithAlters(db, alters), last.id)
  {
    var next := WithAlters(db, alters);
    WithAltersAt(db, alters, last.id);
    assert AlterFits(db, last);
    forall t, n | References(next, t, n, last.id)
      ensures Supports(next.tables[last.id], next.tables[t].constraints[n].referencesColumns)
    {
      AlteredReferences(db, alters, t, n, last.id);
    }
  }

  lemma AlterationRuns(db: Database, alters: seq<AlterTable>)
    requires alters != [] && DistinctAlters(alters) && forall a :: a in alters ==> AlterFits(db, a)
    ensures var init, last := alters[..|alters| - 1], alters[|alters| - 1];
      Execute(MySqlDatabase.AlterTable(last.id, Clauses(last)), WithAlters(db, init)) == Some(WithAlters(db, alters))
  {
    var init, last := alters[..|alters| - 1], alters[|alters| - 1];
    AlteredSupported(db, alters, last);
    WithAltersAt(db, init, last.id);
    assert AlterFits(db, last);
  }

  lemma {:induction false} AlterationsRun(alters: seq<AlterTable>, db: Database)
    requires DistinctAlters(alters) && forall a :: a in alters ==> AlterFits(db, a)
    ensures ExecuteAll(AlterationsOf(alters), db) == Some(WithAlters(db, alters))
  {
    if alters == [] {
    } else {
      var init, last := alters[..|alters| - 1], alters[|alters| - 1];
      AlterationsRun(init, db);
      AlterationRuns(db, alters);
      ExecuteAllSnoc(AlterationsOf(init), MySqlDatabase.AlterTable(last.id, Clauses(last)), db, WithAlters(db, init));
    }
  }
}
