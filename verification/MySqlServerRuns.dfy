/** The phases of a migration on a server that keeps indexes for foreign keys: what each leaves, and exactly when its
    statements go through. */
module MySqlServerRuns {
  import opened Common
  import opened Catalogs
  import opened MySqlDatabase
  import opened MySqlPlan
  import opened MySqlSql
  import opened MySqlAlter
  import opened MySqlPhases
  import opened MySqlServer

  /** What MySQL has checked of every table. */
  ghost predicate SaneServer(sv: Server) {
    && sv.db.tables.Keys <= sv.generated.Keys
    && forall t :: t in sv.db.tables ==> Sane(sv.db.tables[t], sv.generated[t])
  }

  /** A statement about a table goes through if the table that it leaves passes the checks. */
  lemma Performs(s: MySqlDatabase.Statement, sv: Server, t: TableID, db: Database)
    requires TableChanged(s) == Some(t) && Execute(s, sv.db) == Some(db) && t in db.tables
    ensures var g := GeneratedAt(sv, t);
      Perform(s, sv) == if Accepts(s, g, db.tables[t])
                        then Some(Server(db, sv.generated[t := NextGenerated(s, g, db.tables[t])])) else None
  {
  }

  // ----- dropping foreign keys -----

  lemma SaneWithoutKeys(ts: TableState, g: Generated, names: set<string>)
    requires Sane(ts, g)
    requires forall n :: n in names && n in ts.constraints ==> ts.constraints[n].constraintType == ForeignKey
    ensures Sane(WithoutKeys(ts, names), g)
  {
    var after := WithoutKeys(ts, names);
    assert SameServing(ts, after);
    forall n | n in after.constraints && after.constraints[n].constraintType == ForeignKey
      ensures Served(after, g, after.constraints[n].columns)
    {
      SameServed(ts, after, g, ts.constraints[n].columns);
    }
  }

  /** Their generated indexes stay. */
  lemma {:induction false} FkeyDropsPerform(fkeys: seq<TableKey>, sv: Server)
    requires SaneServer(sv) && DistinctKeys(fkeys) && forall k :: k in fkeys ==> IsFkeyOf(sv.db, k)
    ensures PerformAll(FkeyDropsOf(fkeys), sv) == Some(sv.(db := WithoutFkeys(sv.db, fkeys)))
  {
    if fkeys == [] {
    } else {
      var init, last := fkeys[..|fkeys| - 1], fkeys[|fkeys| - 1];
      assert forall k :: k in init ==> k in fkeys;
      FkeyDropsPerform(init, sv);
      FkeyDropPerforms(fkeys, sv);
      PerformAllSnoc(FkeyDropsOf(init), DropForeignKey(last.table, last.constraint.name), sv);
    }
  }

  lemma FkeyDropPerforms(fkeys: seq<TableKey>, sv: Server)
    requires SaneServer(sv) && fkeys != [] && DistinctKeys(fkeys) && forall k :: k in fkeys ==> IsFkeyOf(sv.db, k)
    ensures var init, last := fkeys[..|fkeys| - 1], fkeys[|fkeys| - 1];
      Perform(DropForeignKey(last.table, last.constraint.name), sv.(db := WithoutFkeys(sv.db, init)))
          == Some(sv.(db := WithoutFkeys(sv.db, fkeys)))
  {
    var init, last := fkeys[..|fkeys| - 1], fkeys[|fkeys| - 1];
    var t, s, before := last.table, DropForeignKey(last.table, last.constraint.name), WithoutFkeys(sv.db, init);
    assert IsFkeyOf(sv.db, last);
    DropExecutes(fkeys, sv.db);
    SaneAfterDrops(fkeys, sv);
    Performs(s, sv.(db := before), t, WithoutFkeys(sv.db, fkeys));
    assert sv.generated[t := sv.generated[t]] == sv.generated;
  }

  lemma DropExecutes(fkeys: seq<TableKey>, db: Database)
    requires fkeys != [] && DistinctKeys(fkeys) && forall k :: k in fkeys ==> IsFkeyOf(db, k)
    ensures var init, last := fkeys[..|fkeys| - 1], fkeys[|fkeys| - 1];
      Execute(DropForeignKey(last.table, last.constraint.name), WithoutFkeys(db, init)) == Some(WithoutFkeys(db, fkeys))
  {
    var init, last := fkeys[..|fkeys| - 1], fkeys[|fkeys| - 1];
    assert forall k :: k in init ==> k in fkeys;
    FkeyDropsRun(init, db);
    FkeyDropsRun(fkeys, db);
    ExecuteAllSnoc(FkeyDropsOf(init), DropForeignKey(last.table, last.constraint.name), db, WithoutFkeys(db, init));
  }

  lemma SaneAfterDrops(fkeys: seq<TableKey>, sv: Server)
    requires SaneServer(sv) && fkeys != [] && forall k :: k in fkeys ==> IsFkeyOf(sv.db, k)
    ensures var t := fkeys[|fkeys| - 1].table;
      t in sv.db.tables && t in WithoutFkeys(sv.db, fkeys).tables
      && Sane(WithoutFkeys(sv.db, fkeys).tables[t], sv.generated[t])
  {
    var t := fkeys[|fkeys| - 1].table;
    assert IsFkeyOf(sv.db, fkeys[|fkeys| - 1]);
    WithoutFkeysAt(sv.db, fkeys, t);
    forall n | n in KeyNames(fkeys, t) && n in sv.db.tables[t].constraints
      ensures sv.db.tables[t].constraints[n].constraintType == ForeignKey
    {
      KeyNamesMember(fkeys, t, n);
      var i: nat :| i < |fkeys| && fkeys[i].table == t && fkeys[i].constraint.name == n;
      assert IsFkeyOf(sv.db, fkeys[i]);
    }
    SaneWithoutKeys(sv.db.tables[t], sv.generated[t], KeyNames(fkeys, t));
  }

  // ----- schemas and tables that go -----

  lemma {:induction false} SchemasUntouching(drops: seq<string>, creations: seq<string>)
    ensures Untouching(SchemaDropsOf(drops)) && Untouching(SchemaCreationsOf(creations))
    decreases |drops| + |creations|
  {
    if drops != [] {
      SchemasUntouching(drops[..|drops| - 1], creations);
    } else if creations != [] {
      SchemasUntouching(drops, creations[..|creations| - 1]);
    }
  }

  lemma {:induction false} TableDropsUntouching(tables: seq<TableID>)
    ensures Untouching(TableDropsOf(tables))
  {
    if tables == [] {
    } else {
      TableDropsUntouching(tables[..|tables| - 1]);
    }
  }

  // ----- tables that come -----

  lemma ApartFewer(ts: TableState, indexes: map<string, IndexDef>)
    requires NamesApart(ts, map[]) && indexes.Keys <= ts.indexes.Keys
    ensures NamesApart(ts.(indexes := indexes), map[])
  {
  }

  lemma TidiedNothing(ts: TableState)
    ensures Tidied(map[], ts) == map[]
  {
  }

  /** No foreign key is stated yet. */
  ghost predicate Unlinking(ts: TableState) {
    forall n :: n in ts.constraints ==> ts.constraints[n].constraintType != ForeignKey
  }

  /** The server with a table in some state. */
  function With(sv: Server, t: TableID, ts: TableState, g: Generated): Server {
    Server(sv.db.(tables := sv.db.tables[t := ts]), sv.generated[t := g])
  }

  lemma WithTwice(sv: Server, t: TableID, ts: TableState, g: Generated, after: TableState, h: Generated)
    ensures With(With(sv, t, ts, g), t, after, h) == With(sv, t, after, h)
  {
    assert sv.db.tables[t := ts][t := after] == sv.db.tables[t := after];
    assert sv.generated[t := g][t := h] == sv.generated[t := h];
  }

  lemma PerformAt(s: MySqlDatabase.Statement, sv: Server, t: TableID, ts: TableState, g: Generated, after: TableState)
    requires TableChanged(s) == Some(t) && Execute(s, With(sv, t, ts, g).db) == Some(With(sv, t, after, g).db)
    ensures Perform(s, With(sv, t, ts, g))
         == if Accepts(s, g, after) then Some(With(sv, t, after, NextGenerated(s, g, after))) else None
  {
    Performs(s, With(sv, t, ts, g), t, With(sv, t, after, g).db);
    WithTwice(sv, t, ts, g, after, NextGenerated(s, g, after));
  }

  lemma IndexCreationPerforms(id: TableID, x: Index, sv: Server, ts: TableState, after: TableState)
    requires Unlinking(ts) && Apply(AddIndex(x), ts) == Some(after)
    ensures Perform(CreateIndex(id, x), With(sv, id, ts, map[]))
         == if NamesApart(after, map[]) then Some(With(sv, id, after, map[])) else None
  {
    WithTwice(sv, id, ts, map[], after, map[]);
    PerformAt(CreateIndex(id, x), sv, id, ts, map[], after);
    TidiedNothing(after);
  }

  lemma {:induction false} IndexCreationsPerform(id: TableID, xs: seq<Index>, sv: Server, ts: TableState,
                                                 after: TableState)
    requires Unlinking(ts) && NamesApart(ts, map[]) && ApplyAll(IndexAdds(xs), ts) == Some(after)
    ensures Unlinking(after) && ts.indexes.Keys <= after.indexes.Keys
    ensures PerformAll(IndexCreationsOf(id, xs), With(sv, id, ts, map[]))
         == if NamesApart(after, map[]) then Some(With(sv, id, after, map[])) else None
  {
    if xs == [] {
    } else {
      var init, last := xs[..|xs| - 1], xs[|xs| - 1];
      assert IndexAdds(xs)[..|IndexAdds(xs)| - 1] == IndexAdds(init);
      var mid := ApplyAll(IndexAdds(init), ts).value;
      IndexCreationsPerform(id, init, sv, ts, mid);
      PerformAllSnoc(IndexCreationsOf(id, init), CreateIndex(id, last), With(sv, id, ts, map[]));
      IndexCreationPerforms(id, last, sv, mid, after);
      if NamesApart(after, map[]) {
        ApartFewer(after, mid.indexes);
        assert after.(indexes := mid.indexes) == mid;
      }
    }
  }

  lemma NewTableApart(d: TableDef)
    requires TableOk(d)
    ensures var ts := CreatedState(d).(indexes := map[]);
      Unlinking(ts) && Sane(ts, map[])
  {
    var ts := CreatedState(d).(indexes := map[]);
    forall n | n in ts.constraints ensures ts.constraints[n].constraintType != ForeignKey {
      NotFkeysPart(d.constraints, n);
    }
  }

  lemma NewTablePerforms(t: NewTable, sv: Server)
    requires t.id.schema in sv.db.schemas && t.id !in sv.db.tables && TableOk(t.table.def)
    ensures var d := t.table.def;
      Perform(CreateTable(t.id, MySqlSql.Written(d.columns), NotFkeys(d.constraints)), sv)
          == Some(With(sv, t.id, CreatedState(d).(indexes := map[]), map[]))
  {
    var d := t.table.def;
    var s := CreateTable(t.id, MySqlSql.Written(d.columns), NotFkeys(d.constraints));
    var ts := CreatedState(d).(indexes := map[]);
    NewTableExecutes(t, sv.db);
    NewTableApart(d);
    Performs(s, sv, t.id, With(sv, t.id, ts, map[]).db);
  }

  lemma CreationPerforms(t: NewTable, sv: Server)
    requires t.id.schema in sv.db.schemas && t.id !in sv.db.tables && TableOk(t.table.def)
    ensures PerformAll(CreationOf(t), sv)
         == if CreatedApart(t) then Some(With(sv, t.id, CreatedState(t.table.def), map[])) else None
  {
    var d := t.table.def;
    var create := CreateTable(t.id, MySqlSql.Written(d.columns), NotFkeys(d.constraints));
    var ts := CreatedState(d).(indexes := map[]);
    NewTablePerforms(t, sv);
    NewTableApart(d);
    PerformAllSnoc([], create, sv);
    assert [] + [create] == [create];
    NewIndexesFit(d);
    IndexCreationsPerform(t.id, d.indexes, sv, ts, CreatedState(d));
    PerformAllConcat([create], IndexCreationsOf(t.id, d.indexes), sv);
  }

  /** A new table has no generated indexes. */
  function WithNone(g: map<TableID, Generated>, tables: seq<NewTable>): map<TableID, Generated> {
    if tables == [] then g else WithNone(g, tables[..|tables| - 1])[tables[|tables| - 1].id := map[]]
  }

  lemma {:induction false} WithNoneAt(g: map<TableID, Generated>, tables: seq<NewTable>, t: TableID)
    ensures t in WithNone(g, tables) <==> t in g || IsCreated(tables, t)
    ensures IsCreated(tables, t) ==> WithNone(g, tables)[t] == map[]
    ensures !IsCreated(tables, t) && t in g ==> WithNone(g, tables)[t] == g[t]
  {
    if tables == [] {
    } else {
      WithNoneAt(g, tables[..|tables| - 1], t);
      IsCreatedLast(tables, t);
    }
  }

  /** Whether a new table's keys and indexes have different names. */
  predicate CreatedApart(t: NewTable) {
    NamesApart(CreatedState(t.table.def), map[])
  }

  ghost predicate AllApart(tables: seq<NewTable>) {
    forall i :: 0 <= i < |tables| ==> CreatedApart(tables[i])
  }

  lemma {:induction false} TableCreationsPerform(tables: seq<NewTable>, sv: Server)
    requires DistinctTables(tables)
    requires forall t :: t in tables ==> t.id.schema in sv.db.schemas && t.id !in sv.db.tables && TableOk(t.table.def)
    ensures PerformAll(TableCreationsOf(tables), sv)
         == if AllApart(tables) then Some(Server(WithTables(sv.db, tables), WithNone(sv.generated, tables))) else None
  {
    if tables == [] {
    } else {
      var init, last := tables[..|tables| - 1], tables[|tables| - 1];
      assert forall t :: t in init ==> t in tables;
      TableCreationsPerform(init, sv);
      PerformAllConcat(TableCreationsOf(init), CreationOf(last), sv);
      AllApartLast(tables);
      if AllApart(init) {
        WithTablesAt(sv.db, init, last.id);
        assert last in tables;
        CreationPerforms(last, Server(WithTables(sv.db, init), WithNone(sv.generated, init)));
      }
    }
  }

  lemma AllApartLast(tables: seq<NewTable>)
    requires tables != []
    ensures AllApart(tables) <==> AllApart(tables[..|tables| - 1]) && CreatedApart(tables[|tables| - 1])
  {
    var init := tables[..|tables| - 1];
    assert forall i :: 0 <= i < |init| ==> CreatedApart(init[i]) == CreatedApart(tables[i]);
    if AllApart(tables) {
      forall i | 0 <= i < |init| ensures CreatedApart(init[i]) {
        assert CreatedApart(tables[i]);
      }
    }
  }

  // ----- tables that change -----

  lemma {:induction false} DroppedByConcat(a: seq<MySqlDatabase.Clause>, b: seq<MySqlDatabase.Clause>)
    ensures DroppedBy(a + b) == DroppedBy(a) + DroppedBy(b)
  {
    if b == [] {
      assert a + b == a;
    } else {
      DroppedByConcat(a, b[..|b| - 1]);
      assert (a + b)[..|a + b| - 1] == a + b[..|b| - 1];
    }
  }

  lemma {:induction false} DroppedByDrops(keys: seq<Constraint>, indexes: seq<Index>, columns: seq<Column>)
    ensures DroppedBy(ConstraintDrops(keys)) == {} && DroppedBy(IndexDrops(indexes)) == {}
    ensures DroppedBy(ColumnDrops(columns)) == Names(columns)
    decreases |keys| + |indexes| + |columns|
  {
    if keys != [] {
      DroppedByDrops(keys[..|keys| - 1], indexes, columns);
    } else if indexes != [] {
      DroppedByDrops(keys, indexes[..|indexes| - 1], columns);
    } else if columns != [] {
      DroppedByDrops(keys, indexes, columns[..|columns| - 1]);
    }
  }

  lemma {:induction false} DroppedByColumnAdds(columns: seq<Column>, changes: seq<(Column, Column)>)
    ensures DroppedBy(ColumnAdds(columns)) == {} && DroppedBy(ColumnChanges(changes)) == {}
    decreases |columns| + |changes|
  {
    if columns != [] {
      DroppedByColumnAdds(columns[..|columns| - 1], changes);
    } else if changes != [] {
      DroppedByColumnAdds(columns, changes[..|changes| - 1]);
    }
  }

  lemma {:induction false} DroppedByKeyAdds(indexes: seq<Index>, keys: seq<Constraint>)
    ensures DroppedBy(IndexAdds(indexes)) == {} && DroppedBy(ConstraintAdds(keys)) == {}
    decreases |indexes| + |keys|
  {
    if indexes != [] {
      DroppedByKeyAdds(indexes[..|indexes| - 1], keys);
    } else if keys != [] {
      DroppedByKeyAdds(indexes, keys[..|keys| - 1]);
    }
  }

  lemma DroppedByAlter(a: MySqlPlan.AlterTable)
    ensures DroppedBy(Clauses(a)) == Names(a.dropColumns)
  {
    DroppedByDrops(a.dropConstraints, a.dropIndexes, a.dropColumns);
    DroppedByColumnAdds(a.addColumns, a.alterColumns);
    DroppedByKeyAdds(a.createIndexes, a.addConstraints);
    DroppedByConcat(DropClauses(a), AddClauses(a));
    DroppedByConcat(ConstraintDrops(a.dropConstraints), IndexDrops(a.dropIndexes));
    DroppedByConcat(ConstraintDrops(a.dropConstraints) + IndexDrops(a.dropIndexes), ColumnDrops(a.dropColumns));
    DroppedByConcat(ColumnAdds(a.addColumns), ColumnChanges(a.alterColumns));
    DroppedByConcat(ColumnAdds(a.addColumns) + ColumnChanges(a.alterColumns), IndexAdds(a.createIndexes));
    DroppedByConcat(ColumnAdds(a.addColumns) + ColumnChanges(a.alterColumns) + IndexAdds(a.createIndexes),
                    ConstraintAdds(a.addConstraints));
  }

  /** The generated indexes that an ALTER TABLE leaves. */
  function AlteredGenerated(g: Generated, a: MySqlPlan.AlterTable, after: TableState): Generated {
    Tidied(WithoutColumns(g, Names(a.dropColumns)), after)
  }

  function GeneratedWith(sv: Server, alters: seq<MySqlPlan.AlterTable>): map<TableID, Generated> {
    if alters == [] then sv.generated
    else
      var rest, a := GeneratedWith(sv, alters[..|alters| - 1]), alters[|alters| - 1];
      if a.id in sv.db.tables
      then rest[a.id := AlteredGenerated(GeneratedAt(sv, a.id), a, AfterAlter(sv.db.tables[a.id], a))]
      else rest
  }

  lemma {:induction false} GeneratedWithAt(sv: Server, alters: seq<MySqlPlan.AlterTable>, i: nat, t: TableID)
    requires DistinctAlters(alters)
    ensures sv.generated.Keys <= GeneratedWith(sv, alters).Keys
    ensures (forall k :: 0 <= k < |alters| ==> alters[k].id != t) && t in sv.generated ==>
              GeneratedWith(sv, alters)[t] == sv.generated[t]
    ensures i < |alters| && alters[i].id in sv.db.tables ==>
              alters[i].id in GeneratedWith(sv, alters)
              && GeneratedWith(sv, alters)[alters[i].id]
                 == AlteredGenerated(GeneratedAt(sv, alters[i].id), alters[i],
                                     AfterAlter(sv.db.tables[alters[i].id], alters[i]))
  {
    if alters == [] {
    } else {
      var init := alters[..|alters| - 1];
      GeneratedWithAt(sv, init, i, t);
      assert forall k :: 0 <= k < |init| ==> init[k] == alters[k];
    }
  }

  /** The table passes the checks once it is altered. */
  ghost predicate AlterSane(sv: Server, a: MySqlPlan.AlterTable) {
    a.id in sv.db.tables
    && Sane(AfterAlter(sv.db.tables[a.id], a),
            AlteredGenerated(GeneratedAt(sv, a.id), a, AfterAlter(sv.db.tables[a.id], a)))
  }

  ghost predicate AllSane(sv: Server, alters: seq<MySqlPlan.AlterTable>) {
    forall i :: 0 <= i < |alters| ==> AlterSane(sv, alters[i])
  }

  lemma AllSaneLast(sv: Server, alters: seq<MySqlPlan.AlterTable>)
    requires alters != []
    ensures AllSane(sv, alters) <==> AllSane(sv, alters[..|alters| - 1]) && AlterSane(sv, alters[|alters| - 1])
  {
    assert forall i :: 0 <= i < |alters| - 1 ==> alters[..|alters| - 1][i] == alters[i];
  }

  lemma AlterationPerforms(alters: seq<MySqlPlan.AlterTable>, sv: Server)
    requires alters != [] && DistinctAlters(alters) && forall a :: a in alters ==> AlterFits(sv.db, a)
    requires sv.db.tables.Keys <= sv.generated.Keys
    requires alters[|alters| - 1].id in sv.db.tables
    ensures var init, last := alters[..|alters| - 1], alters[|alters| - 1];
      Perform(MySqlDatabase.AlterTable(last.id, Clauses(last)),
              Server(WithAlters(sv.db, init), GeneratedWith(sv, init)))
         == if AlterSane(sv, last) then Some(Server(WithAlters(sv.db, alters), GeneratedWith(sv, alters))) else None
  {
    var init, last := alters[..|alters| - 1], alters[|alters| - 1];
    var before := Server(WithAlters(sv.db, init), GeneratedWith(sv, init));
    AlterationRuns(sv.db, alters);
    MySqlPhases.Touched(sv.db, alters, |alters| - 1);
    NotAlteredBefore(sv, alters);
    DroppedByAlter(last);
    Performs(MySqlDatabase.AlterTable(last.id, Clauses(last)), before, last.id, WithAlters(sv.db, alters));
  }

  lemma NotAlteredBefore(sv: Server, alters: seq<MySqlPlan.AlterTable>)
    requires alters != [] && DistinctAlters(alters) && alters[|alters| - 1].id in sv.generated
    ensures var init, last := alters[..|alters| - 1], alters[|alters| - 1];
      last.id in GeneratedWith(sv, init) && GeneratedWith(sv, init)[last.id] == sv.generated[last.id]
  {
    GeneratedWithAt(sv, alters[..|alters| - 1], 0, alters[|alters| - 1].id);
  }

  /** Tables are altered one by one, each if it passes the checks. */
  lemma {:induction false} AlterationsPerform(alters: seq<MySqlPlan.AlterTable>, sv: Server)
    requires DistinctAlters(alters) && sv.db.tables.Keys <= sv.generated.Keys
    requires forall a :: a in alters ==> AlterFits(sv.db, a)
    ensures PerformAll(AlterationsOf(alters), sv)
         == if AllSane(sv, alters) then Some(Server(WithAlters(sv.db, alters), GeneratedWith(sv, alters))) else None
  {
    if alters == [] {
    } else {
      var init, last := alters[..|alters| - 1], alters[|alters| - 1];
      assert forall a :: a in init ==> a in alters;
      AlterationsPerform(init, sv);
      assert AlterFits(sv.db, last);
      AlterationPerforms(alters, sv);
      AllSaneLast(sv, alters);
      PerformAllSnoc(AlterationsOf(init), MySqlDatabase.AlterTable(last.id, Clauses(last)), sv);
    }
  }

  // ----- foreign keys that come -----

  /** What the server keeps for the foreign keys it is given. */
  function GeneratedFor(sv: Server, fkeys: seq<TableKey>): map<TableID, Generated> {
    if fkeys == [] then sv.generated
    else
      var rest, k := GeneratedFor(sv, fkeys[..|fkeys| - 1]), fkeys[|fkeys| - 1];
      if k.table in rest && k.table in sv.db.tables
      then rest[k.table := AfterFkey(rest[k.table], k.constraint.name, k.constraint.def.columns,
                                     sv.db.tables[k.table])]
      else rest
  }

  /** A foreign key can be added if something serves it, or if the name of its index is free. */
  predicate FkeyFits(ts: TableState, g: Generated, c: Constraint) {
    Served(ts, g, c.def.columns) || (c.name !in ts.indexes && c.name !in g)
  }

  ghost predicate FkeysFit(sv: Server, fkeys: seq<TableKey>) {
    fkeys == []
    || (var init, k := fkeys[..|fkeys| - 1], fkeys[|fkeys| - 1];
        && FkeysFit(sv, init) && k.table in sv.db.tables && k.table in GeneratedFor(sv, init)
        && FkeyFits(sv.db.tables[k.table], GeneratedFor(sv, init)[k.table], k.constraint))
  }

  function MoreFkeys(ts: TableState, more: map<string, ConstraintDef>): TableState {
    ts.(constraints := ts.constraints + more)
  }

  lemma MoreServes(ts: TableState, more: map<string, ConstraintDef>)
    requires ts.constraints.Keys !! more.Keys && forall n :: n in more ==> more[n].constraintType == ForeignKey
    ensures SameServing(ts, MoreFkeys(ts, more))
  {
  }

  lemma SameAfterFkey(a: TableState, b: TableState, g: Generated, name: string, columns: seq<string>)
    requires SameServing(a, b)
    ensures AfterFkey(g, name, columns, a) == AfterFkey(g, name, columns, b)
  {
    SameServed(a, b, g, columns);
    SameTidied(a, b, g[name := columns]);
  }

  lemma LongerServes(g: Generated, name: string, columns: seq<string>)
    requires name !in g
    ensures Longer(g[name := columns], name) ==> ServesGenerated(g, columns)
  {
    var more := g[name := columns];
    if m :| m in more && more[name] < more[m] {
      assert m in g && columns <= g[m];
    }
  }

  /** An index that is needed stays. */
  lemma NewIndexStays(ts: TableState, g: Generated, c: Constraint)
    requires c.name !in g
    ensures c.name in AfterFkey(g, c.name, c.def.columns, ts) <==> !Served(ts, g, c.def.columns)
    ensures forall n :: n in AfterFkey(g, c.name, c.def.columns, ts) ==> n in g || n == c.name
  {
    LongerServes(g, c.name, c.def.columns);
  }

  lemma ApartWithFkey(ts: TableState, g: Generated, c: Constraint)
    requires NamesApart(ts, g) && c.name !in ts.constraints && c.def.constraintType == ForeignKey
    requires c.name in g ==> Served(ts, g, c.def.columns)
    ensures NamesApart(MoreFkeys(ts, map[c.name := c.def]), AfterFkey(g, c.name, c.def.columns, ts))
       <==> FkeyFits(ts, g, c)
  {
    MoreServes(ts, map[c.name := c.def]);
    SameApart(ts, MoreFkeys(ts, map[c.name := c.def]), AfterFkey(g, c.name, c.def.columns, ts));
    if c.name !in g {
      NewIndexStays(ts, g, c);
    }
  }

  lemma SaneExactly(ts: TableState, g: Generated, c: Constraint)
    requires Sane(ts, g) && c.name !in ts.constraints && c.def.constraintType == ForeignKey
    requires c.name in g ==> Served(ts, g, c.def.columns)
    ensures Sane(MoreFkeys(ts, map[c.name := c.def]), AfterFkey(g, c.name, c.def.columns, ts)) <==> FkeyFits(ts, g, c)
  {
    AllServedWith(ts, g, c);
    ApartWithFkey(ts, g, c);
  }

  /** Exactly then is the table in order with one more foreign key. */
  lemma SaneWithFkey(ts: TableState, g: Generated, c: Constraint, t: TableID)
    requires Sane(ts, g) && c.name !in ts.constraints && c.def.constraintType == ForeignKey
    ensures var after := MoreFkeys(ts, map[c.name := c.def]);
      && NextGenerated(AddForeignKey(t, c), g, after) == AfterFkey(g, c.name, c.def.columns, ts)
      && (Accepts(AddForeignKey(t, c), g, after) <==> FkeyFits(ts, g, c))
  {
    var after := MoreFkeys(ts, map[c.name := c.def]);
    MoreServes(ts, map[c.name := c.def]);
    SameAfterFkey(ts, after, g, c.name, c.def.columns);
    SameServed(ts, after, g, c.def.columns);
    if c.name in g ==> Served(ts, g, c.def.columns) {
      SaneExactly(ts, g, c);
    }
  }

  lemma AllServedWith(ts: TableState, g: Generated, c: Constraint)
    requires FkeysServed(ts, g) && c.name !in ts.constraints && c.def.constraintType == ForeignKey
    requires c.name in g ==> Served(ts, g, c.def.columns)
    ensures FkeysServed(MoreFkeys(ts, map[c.name := c.def]), AfterFkey(g, c.name, c.def.columns, ts))
  {
    var after, h := MoreFkeys(ts, map[c.name := c.def]), AfterFkey(g, c.name, c.def.columns, ts);
    MoreServes(ts, map[c.name := c.def]);
    forall n | n in after.constraints && after.constraints[n].constraintType == ForeignKey
      ensures Served(after, h, after.constraints[n].columns)
    {
      FkeyServes(g, c.name, c.def.columns, ts, after.constraints[n].columns);
      SameServed(ts, after, h, after.constraints[n].columns);
    }
  }

  lemma ServingKept(db: Database, fkeys: seq<TableKey>, t: TableID)
    requires DistinctKeys(fkeys) && t in db.tables && forall k :: k in fkeys ==> CanAdd(db, k)
    ensures t in WithFkeys(db, fkeys).tables && SameServing(db.tables[t], WithFkeys(db, fkeys).tables[t])
  {
    WithFkeysAt(db, fkeys, t);
    var more := KeysAt(fkeys, t);
    forall n | n in more ensures n !in db.tables[t].constraints && more[n].constraintType == ForeignKey {
      KeysAtMember(fkeys, t, n);
      var i: nat :| i < |fkeys| && fkeys[i].table == t && fkeys[i].constraint.name == n;
      assert CanAdd(db, fkeys[i]);
    }
    MoreServes(db.tables[t], more);
  }

  /** The server with some foreign keys. */
  function WithKeys(sv: Server, fkeys: seq<TableKey>): Server {
    Server(WithFkeys(sv.db, fkeys), GeneratedFor(sv, fkeys))
  }

  lemma {:induction false} GeneratedForKeys(sv: Server, fkeys: seq<TableKey>)
    ensures GeneratedFor(sv, fkeys).Keys == sv.generated.Keys
  {
    if fkeys == [] {
    } else {
      GeneratedForKeys(sv, fkeys[..|fkeys| - 1]);
    }
  }

  /** The table with one more foreign key. */
  function WithOneKey(db: Database, k: TableKey): Database
    requires k.table in db.tables
  {
    db.(tables := db.tables[k.table := MoreFkeys(db.tables[k.table], map[k.constraint.name := k.constraint.def])])
  }

  lemma AddExecutes(db: Database, k: TableKey)
    requires CanAdd(db, k)
    ensures Execute(AddForeignKey(k.table, k.constraint), db) == Some(WithOneKey(db, k))
  {
    var ts, c := db.tables[k.table], k.constraint;
    assert ts.constraints + map[c.name := c.def] == ts.constraints[c.name := c.def];
  }

  lemma AddPerforms(sv: Server, k: TableKey)
    requires SaneServer(sv) && CanAdd(sv.db, k)
    ensures var t, c := k.table, k.constraint;
      var g := AfterFkey(sv.generated[t], c.name, c.def.columns, sv.db.tables[t]);
      && Perform(AddForeignKey(t, c), sv)
          == (if FkeyFits(sv.db.tables[t], sv.generated[t], c)
              then Some(Server(WithOneKey(sv.db, k), sv.generated[t := g])) else None)
      && (FkeyFits(sv.db.tables[t], sv.generated[t], c) ==> Sane(WithOneKey(sv.db, k).tables[t], g))
  {
    AddExecutes(sv.db, k);
    SaneWithFkey(sv.db.tables[k.table], sv.generated[k.table], k.constraint, k.table);
    Performs(AddForeignKey(k.table, k.constraint), sv, k.table, WithOneKey(sv.db, k));
  }

  lemma WithLastKey(db: Database, fkeys: seq<TableKey>)
    requires fkeys != [] && fkeys[|fkeys| - 1].table in db.tables
    ensures fkeys[|fkeys| - 1].table in WithFkeys(db, fkeys[..|fkeys| - 1]).tables
    ensures WithFkeys(db, fkeys) == WithOneKey(WithFkeys(db, fkeys[..|fkeys| - 1]), fkeys[|fkeys| - 1])
  {
    var init, k := fkeys[..|fkeys| - 1], fkeys[|fkeys| - 1];
    WithFkeysAt(db, init, k.table);
    var ts := WithFkeys(db, init).tables[k.table];
    assert ts.constraints + map[k.constraint.name := k.constraint.def]
        == ts.constraints[k.constraint.name := k.constraint.def];
  }

  lemma FkeyAddPerforms(fkeys: seq<TableKey>, sv: Server)
    requires fkeys != [] && DistinctKeys(fkeys) && SaneServer(WithKeys(sv, fkeys[..|fkeys| - 1]))
    requires sv.db.tables.Keys <= sv.generated.Keys && forall k :: k in fkeys ==> CanAdd(sv.db, k)
    ensures var init, k := fkeys[..|fkeys| - 1], fkeys[|fkeys| - 1];
      && k.table in sv.db.tables && k.table in GeneratedFor(sv, init)
      && Perform(AddForeignKey(k.table, k.constraint), WithKeys(sv, init))
          == (if FkeyFits(sv.db.tables[k.table], GeneratedFor(sv, init)[k.table], k.constraint)
              then Some(WithKeys(sv, fkeys)) else None)
      && (FkeyFits(sv.db.tables[k.table], GeneratedFor(sv, init)[k.table], k.constraint) ==>
            Sane(WithFkeys(sv.db, fkeys).tables[k.table], GeneratedFor(sv, fkeys)[k.table]))
  {
    var init, k := fkeys[..|fkeys| - 1], fkeys[|fkeys| - 1];
    var t, c := k.table, k.constraint;
    assert CanAdd(sv.db, k);
    LastCanBeAdded(fkeys, sv.db);
    GeneratedForKeys(sv, init);
    assert forall x :: x in init ==> x in fkeys;
    ServingKept(sv.db, init, t);
    WithLastKey(sv.db, fkeys);
    var mid, g := WithFkeys(sv.db, init).tables[t], GeneratedFor(sv, init)[t];
    SameServed(sv.db.tables[t], mid, g, c.def.columns);
    SameAfterFkey(sv.db.tables[t], mid, g, c.name, c.def.columns);
    AddPerforms(WithKeys(sv, init), k);
  }

  lemma SaneStill(sv: Server, fkeys: seq<TableKey>)
    requires fkeys != [] && SaneServer(WithKeys(sv, fkeys[..|fkeys| - 1]))
    requires sv.db.tables.Keys <= sv.generated.Keys && fkeys[|fkeys| - 1].table in sv.db.tables
    requires fkeys[|fkeys| - 1].table in WithFkeys(sv.db, fkeys).tables
    requires fkeys[|fkeys| - 1].table in GeneratedFor(sv, fkeys)
    requires Sane(WithFkeys(sv.db, fkeys).tables[fkeys[|fkeys| - 1].table],
                  GeneratedFor(sv, fkeys)[fkeys[|fkeys| - 1].table])
    ensures SaneServer(WithKeys(sv, fkeys))
  {
    var init := fkeys[..|fkeys| - 1];
    GeneratedForKeys(sv, fkeys);
    GeneratedForKeys(sv, init);
    forall t | t in WithFkeys(sv.db, fkeys).tables
      ensures t in GeneratedFor(sv, fkeys)
      ensures Sane(WithFkeys(sv.db, fkeys).tables[t], GeneratedFor(sv, fkeys)[t])
    {
      WithFkeysAt(sv.db, fkeys, t);
      WithFkeysAt(sv.db, init, t);
      if t != fkeys[|fkeys| - 1].table {
        assert Sane(WithFkeys(sv.db, init).tables[t], GeneratedFor(sv, init)[t]);
      }
    }
  }

  /** Foreign keys are added one by one, each if something serves it or its index can be made. */
  lemma {:induction false} FkeyAddsPerform(fkeys: seq<TableKey>, sv: Server)
    requires SaneServer(sv) && DistinctKeys(fkeys) && forall k :: k in fkeys ==> CanAdd(sv.db, k)
    ensures PerformAll(FkeyAddsOf(fkeys), sv) == if FkeysFit(sv, fkeys) then Some(WithKeys(sv, fkeys)) else None
    ensures FkeysFit(sv, fkeys) ==> SaneServer(WithKeys(sv, fkeys))
  {
    if fkeys == [] {
    } else {
      var init, last := fkeys[..|fkeys| - 1], fkeys[|fkeys| - 1];
      assert forall k :: k in init ==> k in fkeys;
      FkeyAddsPerform(init, sv);
      PerformAllSnoc(FkeyAddsOf(init), AddForeignKey(last.table, last.constraint), sv);
      if FkeysFit(sv, init) {
        FkeyAddPerforms(fkeys, sv);
        if FkeysFit(sv, fkeys) {
          WithFkeysAt(sv.db, fkeys, last.table);
          GeneratedForKeys(sv, fkeys);
          SaneStill(sv, fkeys);
        }
      }
    }
  }

  /** Foreign key k of the list has been given the table, and starts with the columns. */
  predicate AddedBefore(fkeys: seq<TableKey>, t: TableID, columns: seq<string>) {
    exists k :: 0 <= k < |fkeys| && fkeys[k].table == t && columns <= fkeys[k].constraint.def.columns
  }

  lemma AddedBeforeLast(fkeys: seq<TableKey>, t: TableID, columns: seq<string>)
    requires fkeys != []
    ensures AddedBefore(fkeys, t, columns) <==>
            || AddedBefore(fkeys[..|fkeys| - 1], t, columns)
            || (fkeys[|fkeys| - 1].table == t && columns <= fkeys[|fkeys| - 1].constraint.def.columns)
  {
    var init := fkeys[..|fkeys| - 1];
    if AddedBefore(init, t, columns) {
      var k :| 0 <= k < |init| && init[k].table == t && columns <= init[k].constraint.def.columns;
      assert fkeys[k] == init[k];
    }
    if AddedBefore(fkeys, t, columns) {
      var k :| 0 <= k < |fkeys| && fkeys[k].table == t && columns <= fkeys[k].constraint.def.columns;
      assert k < |init| ==> init[k] == fkeys[k];
    }
  }

  /** What is served while foreign keys are added: what was before, and what the ones added start with. */
  lemma {:induction false} ServedExactly(sv: Server, fkeys: seq<TableKey>, t: TableID, columns: seq<string>)
    requires FkeysFit(sv, fkeys) && t in sv.db.tables && t in sv.generated
    ensures t in GeneratedFor(sv, fkeys)
    ensures Served(sv.db.tables[t], GeneratedFor(sv, fkeys)[t], columns) <==>
            Served(sv.db.tables[t], sv.generated[t], columns) || AddedBefore(fkeys, t, columns)
  {
    if fkeys == [] {
    } else {
      var init, k := fkeys[..|fkeys| - 1], fkeys[|fkeys| - 1];
      ServedExactly(sv, init, t, columns);
      AddedBeforeLast(fkeys, t, columns);
      if k.table == t {
        FkeyServes(GeneratedFor(sv, init)[t], k.constraint.name, k.constraint.def.columns, sv.db.tables[t], columns);
      }
    }
  }
}
