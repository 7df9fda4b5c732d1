/** Every database that a migration leaves is that of a catalog. */
module MySqlReadBack {
  import opened Common
  import opened Catalogs
  import opened MySqlDatabase
  import opened MySqlPlan
  import opened MySqlSql
  import opened MySqlAlter
  import opened MySqlPhases
  import opened MySqlPlanItems
  import opened MySqlCorrect
  import opened MySqlConverge
  import opened MySqlServer
  import opened MySqlServerRuns
  import opened MySqlServerCorrect
  import opened MySqlServerConverge

  lemma {:induction false} ListOf<T(!new)>(m: map<string, T>) returns (xs: seq<Object<T>>)
    ensures Plain(xs) && Live(xs) == m
    decreases |m|
  {
    if m == map[] {
      xs := [];
    } else {
      var n :| n in m;
      var rest := ListOf(m - {n});
      xs := rest + [Object(n, false, m[n])];
      assert xs[..|rest|] == rest;
      NotLiveNotThere(rest, n);
    }
  }

  lemma {:induction false} NotLiveNotThere<T(!new)>(xs: seq<Object<T>>, n: string)
    requires Plain(xs) && n !in Live(xs)
    ensures forall i :: 0 <= i < |xs| ==> xs[i].name != n
  {
    LiveMember(xs, n);
    forall i | 0 <= i < |xs| ensures xs[i].name != n {
      assert xs[i] in xs;
    }
  }

  /** MySQL stores no identity. */
  ghost predicate NoIdentities(ts: TableState) {
    forall n :: n in ts.columns ==> ts.columns[n].identity == ""
  }

  lemma TableFor(ts: TableState) returns (t: TableDef)
    requires NoIdentities(ts)
    ensures StateOf(t) == ts && PlainTable(t) && StoredColumns(t.columns) == Live(t.columns)
  {
    var columns := ListOf(ts.columns);
    var constraints := ListOf(ts.constraints);
    var indexes := ListOf(ts.indexes);
    t := TableDef(columns, constraints, indexes);
  }

  /** The tables of one schema. */
  ghost predicate TablesOf(m: map<string, TableDef>, tables: map<TableID, TableState>, schema: string) {
    forall n {:trigger TableID(schema, n)} {:trigger n in m} ::
      && (n in m <==> TableID(schema, n) in tables)
      && (n in m ==> StateOf(m[n]) == tables[TableID(schema, n)] && PlainTable(m[n])
                     && StoredColumns(m[n].columns) == Live(m[n].columns))
  }

  lemma {:induction false} TablesFor(tables: map<TableID, TableState>, schema: string)
    returns (m: map<string, TableDef>)
    requires forall t :: t in tables ==> NoIdentities(tables[t])
    ensures TablesOf(m, tables, schema)
    decreases |tables|
  {
    if tables == map[] {
      m := map[];
    } else {
      var t :| t in tables;
      var rest := tables - {t};
      m := TablesFor(rest, schema);
      if t.schema == schema {
        var def := TableFor(tables[t]);
        m := m[t.name := def];
        OneMoreTable(m, rest, tables, t, def);
      } else {
        forall n ensures TableID(schema, n) in rest <==> TableID(schema, n) in tables {
          assert TableID(schema, n) != t;
        }
      }
    }
  }

  lemma OneMoreTable(m: map<string, TableDef>, rest: map<TableID, TableState>, tables: map<TableID, TableState>,
                     t: TableID, def: TableDef)
    requires t in tables && rest == tables - {t} && t.name in m && m[t.name] == def
    requires StateOf(def) == tables[t] && PlainTable(def) && StoredColumns(def.columns) == Live(def.columns)
    requires TablesOf(m - {t.name}, rest, t.schema)
    ensures TablesOf(m, tables, t.schema)
  {
    forall n
      ensures n in m <==> TableID(t.schema, n) in tables
      ensures n in m ==> StateOf(m[n]) == tables[TableID(t.schema, n)] && PlainTable(m[n])
                         && StoredColumns(m[n].columns) == Live(m[n].columns)
    {
      if n != t.name {
        assert n in m <==> n in m - {t.name};
        assert TableID(t.schema, n) in rest <==> TableID(t.schema, n) in tables;
      }
    }
  }

  ghost predicate SchemaFor(s: Schema, tables: map<TableID, TableState>) {
    !s.ignore && Plain(s.def) && TablesOf(Live(s.def), tables, s.name)
  }

  lemma {:induction false} SchemasFor(names: set<string>, tables: map<TableID, TableState>) returns (xs: seq<Schema>)
    requires forall t :: t in tables ==> NoIdentities(tables[t])
    ensures Plain(xs) && Names(xs) == names && forall i :: 0 <= i < |xs| ==> SchemaFor(xs[i], tables)
    decreases |names|
  {
    if names == {} {
      xs := [];
    } else {
      var n :| n in names;
      var rest := SchemasFor(names - {n}, tables);
      var m := TablesFor(tables, n);
      var ts := ListOf(m);
      xs := rest + [Object(n, false, ts)];
      NamesSnoc(rest, Object(n, false, ts));
      forall i | 0 <= i < |rest| ensures rest[i].name != n {
        NamesMember(rest, rest[i].name);
      }
    }
  }

  /** The catalog has these tables. */
  ghost predicate CatalogFor(c: Catalog, tables: map<TableID, TableState>) {
    && Plain(c.schemas) && (forall i :: 0 <= i < |c.schemas| ==> SchemaFor(c.schemas[i], tables))
    && forall t :: t in tables ==> t.schema in Names(c.schemas)
  }

  lemma CatalogAt(c: Catalog, tables: map<TableID, TableState>, id: TableID)
    requires CatalogFor(c, tables)
    ensures ObjectAt(c, id).Some? <==> id in tables
    ensures id in tables ==> && StateOf(ObjectAt(c, id).value.def) == tables[id]
                             && PlainTable(ObjectAt(c, id).value.def)
                             && StoredColumns(ObjectAt(c, id).value.def.columns)
                                == Live(ObjectAt(c, id).value.def.columns)
  {
    NamedIsFound(c.schemas, id.schema);
    FindAt(c.schemas, id.schema);
    if Find(c.schemas, id.schema).Some? {
      var s := Find(c.schemas, id.schema).value;
      var i: nat :| i < |c.schemas| && c.schemas[i] == s;
      assert SchemaFor(s, tables) && TableID(s.name, id.name) == id;
      FindIsLive(s.def, id.name);
    }
  }

  lemma CatalogIsPlain(c: Catalog, tables: map<TableID, TableState>)
    requires CatalogFor(c, tables)
    ensures PlainCatalog(c)
  {
    forall i | 0 <= i < |c.schemas| ensures MySqlPlanItems.PlainTables(c.schemas[i].def) {
      var s := c.schemas[i];
      assert SchemaFor(s, tables);
      LiveOf(s.def);
      forall k | 0 <= k < |s.def| ensures Plain(s.def[k].def.constraints) {
        assert s.def[k] in s.def;
        assert TableID(s.name, s.def[k].name) in tables;
      }
    }
  }

  lemma CatalogLoads(c: Catalog, db: Database)
    requires CatalogFor(c, db.tables) && Names(c.schemas) + {""} == db.schemas
    ensures Load(c) == db && ReadBack(c)
  {
    CatalogIsPlain(c, db.tables);
    forall id
      ensures id in Load(c).tables <==> id in db.tables
      ensures id in db.tables ==> Load(c).tables[id] == db.tables[id]
    {
      LoadAt(c, id);
      CatalogAt(c, db.tables, id);
    }
    forall id | ObjectAt(c, id).Some?
      ensures PlainTable(ObjectAt(c, id).value.def)
      ensures StoredColumns(ObjectAt(c, id).value.def.columns) == Live(ObjectAt(c, id).value.def.columns)
    {
      CatalogAt(c, db.tables, id);
    }
  }

  predicate HasUnnamed(db: Database) {
    exists t :: t in db.tables && t.schema == ""
  }

  /** A database whose tables are in its schemas, the unnamed one among them, is that of a catalog. */
  lemma ReadDatabase(db: Database, collation: string) returns (c: Catalog)
    requires "" in db.schemas && forall t :: t in db.tables ==> t.schema in db.schemas && NoIdentities(db.tables[t])
    ensures Load(c) == db && ReadBack(c) && c.defaultCollation == collation
    ensures Find(c.schemas, "").Some? ==> HasUnnamed(db)
  {
    var names := if HasUnnamed(db) then db.schemas else db.schemas - {""};
    var schemas := SchemasFor(names, db.tables);
    c := Catalog(collation, schemas);
    assert names + {""} == db.schemas;
    forall t | t in db.tables ensures t.schema in Names(c.schemas) {
    }
    CatalogLoads(c, db);
    NamedIsFound(c.schemas, "");
  }

  // ----- after a migration -----

  lemma AlteredHasNone(ts: TableState, a: MySqlPlan.AlterTable)
    requires NoIdentities(ts)
    ensures NoIdentities(AfterAlter(ts, a))
  {
  }

  lemma StoredHasNone(collation: string, id: TableID, src: Option<Table>, dest: TableDef)
    ensures NoIdentities(BeforeFkeys(collation, id, src, dest))
  {
    if src.Some? {
      var ts := Unlinked(StateOf(src.value.def), StateOf(dest));
      assert NoIdentities(ts);
      AlteredHasNone(ts, Alter(id, collation, src.value.def, dest, true));
    }
  }

  /** What introspection finds on a server. */
  function Shows(sv: Server): Database {
    Database(sv.db.schemas, map t | t in sv.db.tables :: Visible(sv.db.tables[t], GeneratedAt(sv, t)))
  }

  lemma ReadServer(sv: Server, collation: string) returns (c: Catalog)
    requires "" in sv.db.schemas
    requires forall t :: t in sv.db.tables ==> t.schema in sv.db.schemas && NoIdentities(sv.db.tables[t])
    ensures ReadBack(c) && ReadFrom(c, sv) && c.defaultCollation == collation
    ensures Find(c.schemas, "").Some? ==> HasUnnamed(sv.db)
  {
    var db := Shows(sv);
    forall t | t in db.tables ensures t.schema in db.schemas && NoIdentities(db.tables[t]) {
      assert NoIdentities(sv.db.tables[t]);
    }
    c := ReadDatabase(db, collation);
    if HasUnnamed(db) {
      var t :| t in db.tables && t.schema == "";
      assert t in sv.db.tables;
    }
  }

  /** What a migration leaves can be read back, and has an unnamed schema only if dest has one. */
  lemma AfterIsRead(src: Catalog, dest: Catalog, sv: Server) returns (after: Catalog)
    requires Consistent(src) && Consistent(dest) && Agree(src, dest) && Describes(src, sv)
    requires PerformAll(Statements(Plan(src, dest, true)), sv).Some?
    ensures ReadBack(after) && after.defaultCollation == src.defaultCollation
    ensures ReadFrom(after, PerformAll(Statements(Plan(src, dest, true)), sv).value)
    ensures Find(after.schemas, "").Some? ==> Find(dest.schemas, "").Some?
  {
    var left := Server6(src, dest, sv);
    PlanPerforms(src, dest, sv);
    LeftSchemas(src, dest);
    forall t | t in left.db.tables ensures t.schema in left.db.schemas && NoIdentities(left.db.tables[t]) {
      LeftOver(src, dest, sv, t);
    }
    after := ReadServer(left, src.defaultCollation);
    if HasUnnamed(left.db) {
      var t :| t in left.db.tables && t.schema == "";
      LeftOver(src, dest, sv, t);
    }
  }

  lemma LeftSchemas(src: Catalog, dest: Catalog)
    requires Given(src, dest)
    ensures Db6(src, dest).schemas == Names(dest.schemas) + {""}
  {
    WithFkeysAt(Db5(src, dest), Plan(src, dest, true).addFkeys, TableID("", ""));
    Db5At(src, dest, TableID("", ""));
  }

  lemma LeftOver(src: Catalog, dest: Catalog, sv: Server, t: TableID)
    requires GivenServer(src, dest, sv) && t in Db6(src, dest).tables
    ensures Find(dest.schemas, t.schema).Some? && t.schema in Names(dest.schemas)
    ensures NoIdentities(Db6(src, dest).tables[t])
  {
    WithFkeysAt(Db5(src, dest), Plan(src, dest, true).addFkeys, t);
    Db5At(src, dest, t);
    StoredHasNone(src.defaultCollation, t, ObjectAt(src, t), ObjectAt(dest, t).value.def);
    NamedIsFound(dest.schemas, t.schema);
  }
}
