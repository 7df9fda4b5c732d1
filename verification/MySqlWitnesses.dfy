/** A MySQL migration that stops: the index that a foreign key needs is dropped. */
module MySqlWitnesses {
  import opened Common
  import opened Catalogs
  import opened MySqlDatabase
  import opened MySqlPlan
  import opened MySqlSql
  import opened MySqlAlter
  import opened MySqlPlanItems
  import opened MySqlCorrect
  import opened MySqlServer
  import opened MySqlServerRuns
  import opened MySqlServerCorrect
  import opened MySqlServerConverge

  const T := TableID("s", "t")
  const ID := Object("id", false, ColumnDef("int", "", true, false, "", ""))
  const A := Object("a", false, ColumnDef("int", "", false, false, "", ""))
  const PKEY: Constraint := Object("PRIMARY", false, ConstraintDef(PrimaryKey, ["id"], TableID("", ""), []))
  const FKEY: Constraint := Object("f", false, ConstraintDef(ForeignKey, ["a"], T, ["id"]))
  const INDEX := Object("i", false, IndexDef(false, ["a"]))

  /** Table t of schema s: column a refers to the table's primary key. */
  function TableWith(indexes: seq<Index>): Table {
    Object("t", false, TableDef([ID, A], [PKEY, FKEY], indexes))
  }

  function CatalogWith(indexes: seq<Index>): Catalog {
    Catalog("", [Object("s", false, [TableWith(indexes)])])
  }

  lemma LiveTwo<U>(x: Object<U>, y: Object<U>)
    requires !x.ignore && !y.ignore
    ensures Live([x, y]) == map[x.name := x.def][y.name := y.def]
  {
    assert [x, y][..1] == [x] && [x][..0] == [];
    assert Live([x]) == map[x.name := x.def];
  }

  lemma LiveOne<U>(x: Object<U>)
    requires !x.ignore
    ensures Live([x]) == map[x.name := x.def]
  {
    assert [x][..0] == [];
  }

  lemma FindOne<U>(x: Object<U>, n: string)
    requires !x.ignore
    ensures Find([x], n) == if n == x.name then Some(x) else None
  {
    assert [x][..0] == [];
  }

  lemma OneTable(indexes: seq<Index>, id: TableID)
    requires Plain(indexes)
    ensures ObjectAt(CatalogWith(indexes), id) == if id == T then Some(TableWith(indexes)) else None
    ensures PlainCatalog(CatalogWith(indexes))
  {
    FindOne(Object("s", false, [TableWith(indexes)]), id.schema);
    FindOne(TableWith(indexes), id.name);
    assert PKEY.name != FKEY.name;
  }

  lemma TableIsOk(indexes: seq<Index>)
    requires indexes == [] || indexes == [INDEX]
    ensures TableOk(TableWith(indexes).def)
    ensures Live(TableWith(indexes).def.constraints) == map["PRIMARY" := PKEY.def]["f" := FKEY.def]
    ensures Live(indexes) == if indexes == [] then map[] else map["i" := INDEX.def]
  {
    LiveTwo(ID, A);
    LiveTwo(PKEY, FKEY);
    if indexes != [] {
      LiveOne(INDEX);
    }
    assert ID.name != A.name && PKEY.name != FKEY.name;
  }

  /** The table as the server has it. */
  function State(indexes: map<string, IndexDef>): TableState {
    TableState(map["id" := ID.def]["a" := A.def], map["PRIMARY" := PKEY.def]["f" := FKEY.def], indexes)
  }

  lemma TableIsLoaded(indexes: seq<Index>)
    requires indexes == [] || indexes == [INDEX]
    ensures StateOf(TableWith(indexes).def) == State(Live(indexes))
  {
    TableIsOk(indexes);
    LiveTwo(ID, A);
    assert StoredColumn(ID.def) == ID.def && StoredColumn(A.def) == A.def;
  }

  lemma CatalogIsConsistent(indexes: seq<Index>)
    requires indexes == [] || indexes == [INDEX]
    ensures Consistent(CatalogWith(indexes))
    ensures Load(CatalogWith(indexes)).tables == map[T := State(Live(indexes))]
  {
    var c := CatalogWith(indexes);
    TableIsOk(indexes);
    TableIsLoaded(indexes);
    OneTable(indexes, T);
    forall id
      ensures id in Load(c).tables <==> id == T
      ensures ObjectAt(c, id) == if id == T then Some(TableWith(indexes)) else None
    {
      OneTable(indexes, id);
      LoadAt(c, id);
    }
    LoadAt(c, T);
    FkeyIsHeld(Load(c), State(Live(indexes)));
  }

  lemma FkeyIsHeld(db: Database, ts: TableState)
    requires db.tables == map[T := ts] && ts == State(ts.indexes)
    ensures FkeysHold(db)
  {
    assert Supports(ts, ["id"]) by {
      assert "PRIMARY" in ts.constraints && IsKeyDef(ts.constraints["PRIMARY"]);
    }
    forall t, n | IsFkeyAt(db, t, n) ensures FkeyHolds(db, db.tables[t].constraints[n]) {
      assert n == "f";
    }
  }

  /** Where index i serves the foreign key, MySQL has made none. */
  function ServerWith(indexes: seq<Index>): Server {
    Server(Load(CatalogWith(indexes)), map[T := map[]])
  }

  lemma IndexedIsSane(ts: TableState)
    requires ts == State(map["i" := INDEX.def])
    ensures Sane(ts, map[])
  {
    assert Serves(ts, ["a"]) by {
      assert "i" in ts.indexes && ["a"] <= ts.indexes["i"].columns;
    }
    assert "i" != "PRIMARY" && "i" != "f" && "PRIMARY" != "f";
  }

  lemma IndexServes()
    ensures Describes(CatalogWith([INDEX]), ServerWith([INDEX]))
  {
    CatalogIsConsistent([INDEX]);
    TableIsOk([INDEX]);
    IndexedIsSane(State(Live([INDEX])));
    var sv := ServerWith([INDEX]);
    forall t | t in sv.db.tables
      ensures t == T && sv.db.tables[t] == State(Live([INDEX])) && sv.generated[t] == map[]
    {
    }
  }

  lemma NothingServes()
    ensures !Serves(StateOf(TableWith([]).def), ["a"])
  {
    TableIsOk([]);
    TableIsLoaded([]);
    assert !(["a"] <= PKEY.def.columns) by {
      assert PKEY.def.columns[0] != "a";
    }
  }

  /** Dest is src without index i: both catalogs are consistent and agree, and the plan stops. */
  lemma NeededIndexWitness()
    ensures var src, dest, sv := CatalogWith([INDEX]), CatalogWith([]), ServerWith([INDEX]);
      && Consistent(src) && Consistent(dest) && Agree(src, dest) && Describes(src, sv)
      && PerformAll(Statements(Plan(src, dest, true)), sv) == None
  {
    var src, dest, sv := CatalogWith([INDEX]), CatalogWith([]), ServerWith([INDEX]);
    CatalogIsConsistent([INDEX]);
    CatalogIsConsistent([]);
    IndexServes();
    BothAgree();
    NothingServes();
    TableIsOk([INDEX]);
    TableIsOk([]);
    OneTable([INDEX], T);
    OneTable([], T);
    NeededIndexIsKept(src, dest, sv, T, "f");
  }

  lemma BothAgree()
    ensures Agree(CatalogWith([INDEX]), CatalogWith([]))
  {
    TableIsLoaded([INDEX]);
    TableIsLoaded([]);
    TableIsOk([]);
    assert AgreeTable(StateOf(TableWith([INDEX]).def), StateOf(TableWith([]).def));
    forall id
      ensures ObjectAt(CatalogWith([INDEX]), id) == if id == T then Some(TableWith([INDEX])) else None
      ensures ObjectAt(CatalogWith([]), id) == if id == T then Some(TableWith([])) else None
    {
      OneTable([INDEX], id);
      OneTable([], id);
    }
    FindOne(Object("s", false, [TableWith([INDEX])]), "");
  }
}
