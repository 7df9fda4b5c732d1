/** A whole MySQL plan that may drop objects, on a server that keeps indexes for foreign keys: exactly when all of its
    statements go through, and what they leave. */
module MySqlServerCorrect {
  import opened Common
  import opened Catalogs
  import opened MySqlDatabase
  import opened MySqlPlan
  import opened MySqlSql
  import opened MySqlAlter
  import opened MySqlPhases
  import opened MySqlPlanItems
  import opened MySqlCorrect
  import opened MySqlServer
  import opened MySqlServerRuns

  // ----- catalogs and servers -----

  /** A generated index has the name and the columns of a foreign key, which hides it from the catalog. */
  ghost predicate OfFkeys(ts: TableState, g: Generated) {
    forall n :: n in g ==>
      n in ts.constraints && ts.constraints[n].constraintType == ForeignKey && g[n] == ts.constraints[n].columns
  }

  /** The catalog is that of the server. Which foreign keys have an index of their own, it does not say. */
  ghost predicate Describes(c: Catalog, sv: Server) {
    && sv.db == Load(c) && sv.generated.Keys == sv.db.tables.Keys
    && forall t :: t in sv.db.tables ==>
         Sane(sv.db.tables[t], sv.generated[t]) && OfFkeys(sv.db.tables[t], sv.generated[t])
  }

  // ----- when the plan goes through -----

  /** The generated indexes of a table before foreign keys are added to it. */
  function Remaining(collation: string, src: Option<Table>, dest: TableDef, g: Generated): Generated {
    if src.None? then map[]
    else
      var a := Alter(TableID("", ""), collation, src.value.def, dest, true);
      if Keeps(a) then Tidied(WithoutColumns(g, Names(a.dropColumns)), StateOf(dest)) else g
  }

  /** Dest gives different names to the keys and indexes of the table, and what is left of the generated ones has others
      still; and a foreign key that stays is served by one of them. */
  ghost predicate TableFits(src: Option<Table>, dest: TableDef, left: Generated) {
    NamesApart(StateOf(dest), left)
    && (src.Some? ==> forall n :: KeptFkey(src.value.def, dest, n) ==>
          Served(StateOf(dest), left, Live(dest.constraints)[n].columns))
  }

  predicate KeptFkey(src: TableDef, dest: TableDef, n: string) {
    && n in Live(src.constraints) && n in Live(dest.constraints)
    && Live(dest.constraints)[n].constraintType == ForeignKey
  }

  /** A foreign key that comes is served by something, or dest has no index of its name. */
  ghost predicate FkeyPlaced(dest: TableDef, left: Generated, before: seq<TableKey>, k: TableKey) {
    || Served(StateOf(dest), left, k.constraint.def.columns)
    || AddedBefore(before, k.table, k.constraint.def.columns)
    || k.constraint.name !in Live(dest.indexes)
  }

  function LeftAt(src: Catalog, dest: Catalog, sv: Server, t: TableID): Generated
    requires ObjectAt(dest, t).Some?
  {
    Remaining(src.defaultCollation, ObjectAt(src, t), ObjectAt(dest, t).value.def, GeneratedAt(sv, t))
  }

  ghost predicate TablesFit(src: Catalog, dest: Catalog, sv: Server) {
    forall t {:trigger ObjectAt(dest, t)} :: ObjectAt(dest, t).Some? ==>
      TableFits(ObjectAt(src, t), ObjectAt(dest, t).value.def, LeftAt(src, dest, sv, t))
  }

  /** Foreign key i of those that come. */
  ghost predicate PlacedAt(src: Catalog, dest: Catalog, sv: Server, i: nat) {
    var fkeys := Plan(src, dest, true).addFkeys;
    i < |fkeys| && ObjectAt(dest, fkeys[i].table).Some? ==>
      FkeyPlaced(ObjectAt(dest, fkeys[i].table).value.def, LeftAt(src, dest, sv, fkeys[i].table), fkeys[..i], fkeys[i])
  }

  ghost predicate PlacedUpTo(src: Catalog, dest: Catalog, sv: Server, k: nat) {
    forall i :: 0 <= i < k ==> PlacedAt(src, dest, sv, i)
  }

  ghost predicate FkeysPlaced(src: Catalog, dest: Catalog, sv: Server) {
    PlacedUpTo(src, dest, sv, |Plan(src, dest, true).addFkeys|)
  }

  // ----- the phases -----

  ghost predicate GivenServer(src: Catalog, dest: Catalog, sv: Server) {
    Given(src, dest) && Describes(src, sv)
  }

  lemma ServerPhase1(src: Catalog, dest: Catalog, sv: Server)
    requires GivenServer(src, dest, sv)
    ensures PerformAll(FkeyDropsOf(Plan(src, dest, true).dropFkeys), sv) == Some(sv.(db := Db1(src, dest)))
  {
    DropsAreFkeys(src, dest);
    FkeyDropsPerform(Plan(src, dest, true).dropFkeys, sv);
  }

  lemma {:induction false} UntouchingConcat(a: seq<MySqlDatabase.Statement>, b: seq<MySqlDatabase.Statement>)
    requires Untouching(a) && Untouching(b)
    ensures Untouching(a + b)
  {
    if b == [] {
      assert a + b == a;
    } else {
      UntouchingConcat(a, b[..|b| - 1]);
      assert (a + b)[..|a + b| - 1] == a + b[..|b| - 1];
    }
  }

  lemma ServerPhase2(src: Catalog, dest: Catalog, sv: Server)
    requires GivenServer(src, dest, sv)
    ensures PerformAll(SchemaStatements(Plan(src, dest, true)), sv.(db := Db1(src, dest)))
         == Some(sv.(db := Db2(src, dest)))
  {
    var m := Plan(src, dest, true);
    Phase2(src, dest);
    SchemasUntouching(m.dropSchemas, m.createSchemas);
    UntouchingConcat(SchemaDropsOf(m.dropSchemas), SchemaCreationsOf(m.createSchemas));
    UntouchingRuns(SchemaStatements(m), sv.(db := Db1(src, dest)));
  }

  /** The server once the new tables are there. */
  function Server4(src: Catalog, dest: Catalog, sv: Server): Server {
    Server(Db4(src, dest), WithNone(sv.generated, Plan(src, dest, true).createTables))
  }

  lemma ServerPhase3(src: Catalog, dest: Catalog, sv: Server)
    requires GivenServer(src, dest, sv)
    ensures PerformAll(TableStatements(Plan(src, dest, true)), sv.(db := Db2(src, dest)))
         == if AllApart(Plan(src, dest, true).createTables) then Some(Server4(src, dest, sv)) else None
  {
    var m := Plan(src, dest, true);
    Phase3Drops(src, dest);
    TableDropsUntouching(m.dropTables);
    UntouchingRuns(TableDropsOf(m.dropTables), sv.(db := Db2(src, dest)));
    CreationsFit(src, dest);
    TableCreationsPerform(m.createTables, sv.(db := Db3(src, dest)));
    PerformAllConcat(TableDropsOf(m.dropTables), TableCreationsOf(m.createTables), sv.(db := Db2(src, dest)));
  }

  lemma Server4At(src: Catalog, dest: Catalog, sv: Server, t: TableID)
    requires GivenServer(src, dest, sv)
    ensures t in Db4(src, dest).tables <==> ObjectAt(dest, t).Some?
    ensures ObjectAt(dest, t).Some? ==>
              && t in Server4(src, dest, sv).generated
              && Db4(src, dest).tables[t] == Unaltered(ObjectAt(src, t), ObjectAt(dest, t).value.def)
              && Server4(src, dest, sv).generated[t] == if ObjectAt(src, t).None? then map[] else GeneratedAt(sv, t)
  {
    var tables := Plan(src, dest, true).createTables;
    Db4At(src, dest, t);
    LoadAt(src, t);
    CreatedAt(src, dest, true, t);
    WithNoneAt(sv.generated, tables, t);
  }

  /** The server once the tables are altered. */
  function Server5(src: Catalog, dest: Catalog, sv: Server): Server {
    Server(Db5(src, dest), GeneratedWith(Server4(src, dest, sv), Plan(src, dest, true).alterTables))
  }

  lemma ServerPhase4(src: Catalog, dest: Catalog, sv: Server)
    requires GivenServer(src, dest, sv)
    ensures PerformAll(AlterationsOf(Plan(src, dest, true).alterTables), Server4(src, dest, sv))
         == if AllSane(Server4(src, dest, sv), Plan(src, dest, true).alterTables) then Some(Server5(src, dest, sv))
            else None
  {
    var alters := Plan(src, dest, true).alterTables;
    AltersAreFit(src, dest);
    forall t | t in Db4(src, dest).tables ensures t in Server4(src, dest, sv).generated {
      Server4At(src, dest, sv, t);
    }
    AlterationsPerform(alters, Server4(src, dest, sv));
  }

  // ----- what the checks come to, table by table -----

  /** The table before foreign keys are added has the keys and indexes of dest. */
  lemma ServesAsDest(collation: string, id: TableID, src: Option<Table>, dest: TableDef)
    requires TableOk(dest)
    requires src.Some? ==> TableOk(src.value.def) && AgreeTable(StateOf(src.value.def), StateOf(dest))
    ensures SameServing(BeforeFkeys(collation, id, src, dest), StateOf(dest))
  {
    var ts, d := BeforeFkeys(collation, id, src, dest), StateOf(dest);
    if src.Some? {
      BeforeFkeysOfOld(collation, id, src.value, dest);
      MergedServes(StateOf(src.value.def), d, ts);
    } else {
      forall n | HasKeyNamed(ts, n) || HasKeyNamed(d, n)
        ensures n in ts.constraints && n in d.constraints && ts.constraints[n] == d.constraints[n]
      {
        NotFkeysPart(dest.constraints, n);
      }
    }
  }

  lemma MergedServes(src: TableState, dest: TableState, ts: TableState)
    requires AgreeTable(src, dest) && ts.constraints == Merged(src, dest) && ts.indexes == dest.indexes
    ensures SameServing(ts, dest)
    ensures forall n :: n in ts.constraints && ts.constraints[n].constraintType == ForeignKey <==>
              n in src.constraints && n in dest.constraints && dest.constraints[n].constraintType == ForeignKey
  {
    forall n | n in src.constraints && n in dest.constraints
      ensures SameConstraint(src.constraints[n], dest.constraints[n])
    {
    }
  }

  /** A table of both catalogs passes the checks before foreign keys are added exactly if it fits. */
  lemma OldTableFits(collation: string, id: TableID, src: Table, dest: TableDef, left: Generated)
    requires TableOk(src.def) && TableOk(dest) && AgreeTable(StateOf(src.def), StateOf(dest))
    ensures Sane(BeforeFkeys(collation, id, Some(src), dest), left) <==> TableFits(Some(src), dest, left)
  {
    var ts, d := BeforeFkeys(collation, id, Some(src), dest), StateOf(dest);
    BeforeFkeysOfOld(collation, id, src, dest);
    MergedServes(StateOf(src.def), d, ts);
    SameApart(ts, d, left);
    forall n | KeptFkey(src.def, dest, n)
      ensures n in ts.constraints && ts.constraints[n] == d.constraints[n]
      ensures Served(ts, left, d.constraints[n].columns) <==> Served(d, left, d.constraints[n].columns)
    {
      SameServed(ts, d, left, d.constraints[n].columns);
    }
  }

  /** A new table passes them exactly if it fits. */
  lemma NewTableFits(collation: string, id: TableID, dest: TableDef)
    requires TableOk(dest)
    ensures NamesApart(CreatedState(dest), map[]) <==> TableFits(None, dest, map[])
    ensures Sane(CreatedState(dest), map[]) <==> TableFits(None, dest, map[])
  {
    ServesAsDest(collation, id, None, dest);
    SameApart(CreatedState(dest), StateOf(dest), map[]);
    forall n | n in CreatedState(dest).constraints
      ensures CreatedState(dest).constraints[n].constraintType != ForeignKey
    {
      NotFkeysPart(dest.constraints, n);
    }
  }

  /** What is left of the generated indexes of an altered table. */
  lemma RemainingIsAltered(collation: string, id: TableID, src: Table, dest: TableDef, g: Generated)
    requires TableOk(src.def) && TableOk(dest) && AgreeTable(StateOf(src.def), StateOf(dest))
    ensures var a := Alter(id, collation, src.def, dest, true);
      Keeps(a) ==> Remaining(collation, Some(src), dest, g)
                   == AlteredGenerated(g, a, BeforeFkeys(collation, id, Some(src), dest))
  {
    var a := Alter(id, collation, src.def, dest, true);
    assert a == Alter(TableID("", ""), collation, src.def, dest, true).(id := id);
    ServesAsDest(collation, id, Some(src), dest);
    SameTidied(BeforeFkeys(collation, id, Some(src), dest), StateOf(dest), WithoutColumns(g, Names(a.dropColumns)));
  }

  /** The generated indexes at this point. */
  lemma Server5At(src: Catalog, dest: Catalog, sv: Server, t: TableID)
    requires GivenServer(src, dest, sv)
    ensures t in Db5(src, dest).tables <==> ObjectAt(dest, t).Some?
    ensures ObjectAt(dest, t).Some? ==>
              && t in Server5(src, dest, sv).generated
              && Db5(src, dest).tables[t]
                 == BeforeFkeys(src.defaultCollation, t, ObjectAt(src, t), ObjectAt(dest, t).value.def)
              && Server5(src, dest, sv).generated[t] == LeftAt(src, dest, sv, t)
  {
    var alters, sv4 := Plan(src, dest, true).alterTables, Server4(src, dest, sv);
    Db5At(src, dest, t);
    Server4At(src, dest, sv, t);
    AltersAreFit(src, dest);
    if ObjectAt(dest, t).Some? {
      if ObjectAt(src, t).Some? && Keeps(AlterOf(src, dest, t)) {
        var i := AlteredSomewhere(src, dest, t);
        GeneratedWithAt(sv4, alters, i, t);
        OldTablesOk(src, dest, t);
        RemainingIsAltered(src.defaultCollation, t, ObjectAt(src, t).value, ObjectAt(dest, t).value.def,
                           GeneratedAt(sv, t));
      } else {
        NotAltered(src, dest, t);
        GeneratedWithAt(sv4, alters, |alters|, t);
      }
    }
  }

  lemma OldTablesOk(src: Catalog, dest: Catalog, t: TableID)
    requires Given(src, dest) && ObjectAt(src, t).Some? && ObjectAt(dest, t).Some?
    ensures TableOk(ObjectAt(src, t).value.def) && TableOk(ObjectAt(dest, t).value.def)
    ensures AgreeTable(StateOf(ObjectAt(src, t).value.def), StateOf(ObjectAt(dest, t).value.def))
  {
  }

  lemma NotAltered(src: Catalog, dest: Catalog, t: TableID)
    requires PlainCatalog(src) && PlainCatalog(dest)
    requires ObjectAt(src, t).Some? && ObjectAt(dest, t).Some? ==> !Keeps(AlterOf(src, dest, t))
    ensures forall i :: 0 <= i < |Plan(src, dest, true).alterTables| ==> Plan(src, dest, true).alterTables[i].id != t
  {
    var alters := Plan(src, dest, true).alterTables;
    forall i | 0 <= i < |alters| ensures alters[i].id != t {
      AlteredHere(src, dest, i);
    }
  }

  /** A table passes the checks at this point exactly if it fits; if it is not altered, it does. */
  lemma FitsAt(src: Catalog, dest: Catalog, sv: Server, t: TableID)
    requires GivenServer(src, dest, sv) && ObjectAt(dest, t).Some?
    ensures t in Db5(src, dest).tables && t in Server5(src, dest, sv).generated
    ensures TableFits(ObjectAt(src, t), ObjectAt(dest, t).value.def, LeftAt(src, dest, sv, t))
       <==> Sane(Db5(src, dest).tables[t], Server5(src, dest, sv).generated[t])
    ensures ObjectAt(src, t).Some? && !Keeps(AlterOf(src, dest, t)) ==>
              TableFits(ObjectAt(src, t), ObjectAt(dest, t).value.def, LeftAt(src, dest, sv, t))
  {
    Server5At(src, dest, sv, t);
    if ObjectAt(src, t).None? {
      NewTableFits(src.defaultCollation, t, ObjectAt(dest, t).value.def);
    } else {
      OldTablesOk(src, dest, t);
      OldTableFits(src.defaultCollation, t, ObjectAt(src, t).value, ObjectAt(dest, t).value.def,
                   LeftAt(src, dest, sv, t));
      if !Keeps(AlterOf(src, dest, t)) {
        UnalteredKeeps(src, dest, sv, t);
        DescribedIsSane(src, sv, t);
        UnlinkedIsSane(StateOf(ObjectAt(src, t).value.def), StateOf(ObjectAt(dest, t).value.def), GeneratedAt(sv, t));
      }
    }
  }

  lemma UnalteredKeeps(src: Catalog, dest: Catalog, sv: Server, t: TableID)
    requires ObjectAt(src, t).Some? && ObjectAt(dest, t).Some? && !Keeps(AlterOf(src, dest, t))
    ensures LeftAt(src, dest, sv, t) == GeneratedAt(sv, t)
    ensures BeforeFkeys(src.defaultCollation, t, ObjectAt(src, t), ObjectAt(dest, t).value.def)
         == Unlinked(StateOf(ObjectAt(src, t).value.def), StateOf(ObjectAt(dest, t).value.def))
  {
    assert AlterOf(src, dest, t)
        == Alter(TableID("", ""), src.defaultCollation, ObjectAt(src, t).value.def, ObjectAt(dest, t).value.def,
                 true).(id := t);
  }

  lemma DescribedIsSane(c: Catalog, sv: Server, t: TableID)
    requires PlainCatalog(c) && Describes(c, sv) && ObjectAt(c, t).Some?
    ensures Sane(StateOf(ObjectAt(c, t).value.def), GeneratedAt(sv, t))
  {
    LoadAt(c, t);
  }

  lemma UnlinkedIsSane(src: TableState, dest: TableState, g: Generated)
    requires Sane(src, g)
    ensures Sane(Unlinked(src, dest), g)
  {
    var after := Unlinked(src, dest);
    assert SameServing(src, after);
    SameApart(src, after, g);
    forall n | n in after.constraints && after.constraints[n].constraintType == ForeignKey
      ensures Served(after, g, after.constraints[n].columns)
    {
      SameServed(src, after, g, src.constraints[n].columns);
    }
  }

  lemma CreatedFits(src: Catalog, dest: Catalog, sv: Server, i: nat)
    requires GivenServer(src, dest, sv) && i < |Plan(src, dest, true).createTables|
    ensures var t := Plan(src, dest, true).createTables[i];
      && ObjectAt(dest, t.id).Some? && ObjectAt(src, t.id).None?
      && (CreatedApart(t) <==>
            TableFits(ObjectAt(src, t.id), ObjectAt(dest, t.id).value.def, LeftAt(src, dest, sv, t.id)))
  {
    var t := Plan(src, dest, true).createTables[i];
    PlanContains(src, dest, true, Creates(t));
    CreatedAt(src, dest, true, t.id);
    NewTableFits(src.defaultCollation, t.id, t.table.def);
  }

  lemma AlteredFits(src: Catalog, dest: Catalog, sv: Server, i: nat)
    requires GivenServer(src, dest, sv) && i < |Plan(src, dest, true).alterTables|
    ensures var a := Plan(src, dest, true).alterTables[i];
      && ObjectAt(dest, a.id).Some?
      && (AlterSane(Server4(src, dest, sv), a) <==>
            TableFits(ObjectAt(src, a.id), ObjectAt(dest, a.id).value.def, LeftAt(src, dest, sv, a.id)))
  {
    var a := Plan(src, dest, true).alterTables[i];
    AlteredHere(src, dest, i);
    FitsAt(src, dest, sv, a.id);
    AltersAreFit(src, dest);
    Server4At(src, dest, sv, a.id);
    MySqlPhases.Touched(Db4(src, dest), Plan(src, dest, true).alterTables, i);
    GeneratedWithAt(Server4(src, dest, sv), Plan(src, dest, true).alterTables, i, a.id);
  }

  /** Everything up to the foreign keys goes through exactly if all tables fit. */
  lemma TablesFitExactly(src: Catalog, dest: Catalog, sv: Server)
    requires GivenServer(src, dest, sv)
    ensures AllApart(Plan(src, dest, true).createTables)
            && AllSane(Server4(src, dest, sv), Plan(src, dest, true).alterTables)
       <==> TablesFit(src, dest, sv)
    ensures TablesFit(src, dest, sv) ==> SaneServer(Server5(src, dest, sv))
  {
    var m := Plan(src, dest, true);
    if TablesFit(src, dest, sv) {
      forall i | 0 <= i < |m.createTables| ensures CreatedApart(m.createTables[i]) {
        CreatedFits(src, dest, sv, i);
      }
      forall i | 0 <= i < |m.alterTables| ensures AlterSane(Server4(src, dest, sv), m.alterTables[i]) {
        AlteredFits(src, dest, sv, i);
      }
      AllFitIsSane(src, dest, sv);
    }
    if AllApart(m.createTables) && AllSane(Server4(src, dest, sv), m.alterTables) {
      forall t | ObjectAt(dest, t).Some?
        ensures TableFits(ObjectAt(src, t), ObjectAt(dest, t).value.def, LeftAt(src, dest, sv, t))
      {
        CheckedFits(src, dest, sv, t);
      }
    }
  }

  lemma AllFitIsSane(src: Catalog, dest: Catalog, sv: Server)
    requires GivenServer(src, dest, sv) && TablesFit(src, dest, sv)
    ensures SaneServer(Server5(src, dest, sv))
  {
    forall t | t in Db5(src, dest).tables
      ensures t in Server5(src, dest, sv).generated
      ensures Sane(Db5(src, dest).tables[t], Server5(src, dest, sv).generated[t])
    {
      Server5At(src, dest, sv, t);
      FitsAt(src, dest, sv, t);
    }
  }

  lemma CheckedFits(src: Catalog, dest: Catalog, sv: Server, t: TableID)
    requires GivenServer(src, dest, sv) && ObjectAt(dest, t).Some?
    requires AllApart(Plan(src, dest, true).createTables)
    requires AllSane(Server4(src, dest, sv), Plan(src, dest, true).alterTables)
    ensures TableFits(ObjectAt(src, t), ObjectAt(dest, t).value.def, LeftAt(src, dest, sv, t))
  {
    var m := Plan(src, dest, true);
    if ObjectAt(src, t).None? {
      CreatedAt(src, dest, true, t);
      var i: nat :| i < |m.createTables| && m.createTables[i].id == t;
      CreatedFits(src, dest, sv, i);
    } else if Keeps(AlterOf(src, dest, t)) {
      var i := AlteredSomewhere(src, dest, t);
      AlteredFits(src, dest, sv, i);
    } else {
      FitsAt(src, dest, sv, t);
    }
  }

  // ----- what adding foreign keys comes to -----

  lemma {:induction false} GeneratedNames(sv: Server, fkeys: seq<TableKey>, t: TableID, n: string)
    requires t in sv.generated
    ensures t in GeneratedFor(sv, fkeys)
    ensures n in GeneratedFor(sv, fkeys)[t] ==> n in sv.generated[t] || n in KeyNames(fkeys, t)
  {
    if fkeys == [] {
    } else {
      GeneratedNames(sv, fkeys[..|fkeys| - 1], t, n);
    }
  }

  lemma NotBefore(fkeys: seq<TableKey>, i: nat)
    requires DistinctKeys(fkeys) && i < |fkeys|
    ensures fkeys[i].constraint.name !in KeyNames(fkeys[..i], fkeys[i].table)
  {
    KeyNamesMember(fkeys[..i], fkeys[i].table, fkeys[i].constraint.name);
  }

  lemma DescribedName(c: Catalog, sv: Server, t: TableID, n: string)
    requires PlainCatalog(c) && Describes(c, sv) && n in GeneratedAt(sv, t)
    ensures ObjectAt(c, t).Some? && n in Live(ObjectAt(c, t).value.def.constraints)
    ensures Live(ObjectAt(c, t).value.def.constraints)[n].constraintType == ForeignKey
  {
    LoadAt(c, t);
    assert OfFkeys(sv.db.tables[t], sv.generated[t]);
  }

  /** What is left has the names of foreign keys of src. */
  lemma LeftName(src: Catalog, dest: Catalog, sv: Server, t: TableID, n: string)
    requires GivenServer(src, dest, sv) && ObjectAt(dest, t).Some? && n in LeftAt(src, dest, sv, t)
    ensures ObjectAt(src, t).Some? && n in Live(ObjectAt(src, t).value.def.constraints)
    ensures Live(ObjectAt(src, t).value.def.constraints)[n].constraintType == ForeignKey
  {
    assert n in GeneratedAt(sv, t);
    DescribedName(src, sv, t, n);
  }

  lemma NameIsFree(src: Catalog, dest: Catalog, sv: Server, i: nat)
    requires GivenServer(src, dest, sv) && i < |Plan(src, dest, true).addFkeys|
    ensures var fkeys := Plan(src, dest, true).addFkeys;
      && ObjectAt(dest, fkeys[i].table).Some?
      && fkeys[i].table in GeneratedFor(Server5(src, dest, sv), fkeys[..i])
      && fkeys[i].constraint.name !in GeneratedFor(Server5(src, dest, sv), fkeys[..i])[fkeys[i].table]
  {
    var fkeys := Plan(src, dest, true).addFkeys;
    var t, n := fkeys[i].table, fkeys[i].constraint.name;
    AddIsPlanned(src, dest, true, fkeys[i]);
    Server5At(src, dest, sv, t);
    if n in LeftAt(src, dest, sv, t) {
      LeftName(src, dest, sv, t, n);
    }
    GeneratedNames(Server5(src, dest, sv), fkeys[..i], t, n);
    PlanProper(src, dest, true);
    NotBefore(fkeys, i);
  }

  lemma PlacedExactly(src: Catalog, dest: Catalog, sv: Server, i: nat)
    requires GivenServer(src, dest, sv) && i < |Plan(src, dest, true).addFkeys|
    requires FkeysFit(Server5(src, dest, sv), Plan(src, dest, true).addFkeys[..i])
    ensures var fkeys, sv5 := Plan(src, dest, true).addFkeys, Server5(src, dest, sv);
      var t := fkeys[i].table;
      && t in sv5.db.tables && t in GeneratedFor(sv5, fkeys[..i]) && ObjectAt(dest, t).Some?
      && (FkeyFits(sv5.db.tables[t], GeneratedFor(sv5, fkeys[..i])[t], fkeys[i].constraint) <==>
          PlacedAt(src, dest, sv, i))
  {
    var fkeys, sv5 := Plan(src, dest, true).addFkeys, Server5(src, dest, sv);
    var t, c := fkeys[i].table, fkeys[i].constraint;
    NameIsFree(src, dest, sv, i);
    Server5At(src, dest, sv, t);
    var d := ObjectAt(dest, t).value.def;
    if ObjectAt(src, t).Some? {
      OldTablesOk(src, dest, t);
    }
    ServesAsDest(src.defaultCollation, t, ObjectAt(src, t), d);
    SameServed(sv5.db.tables[t], StateOf(d), LeftAt(src, dest, sv, t), c.def.columns);
    ServedExactly(sv5, fkeys[..i], t, c.def.columns);
  }

  /** The foreign keys can be added exactly if each has its place. */
  lemma FkeysPlacedExactly(src: Catalog, dest: Catalog, sv: Server)
    requires GivenServer(src, dest, sv)
    ensures FkeysFit(Server5(src, dest, sv), Plan(src, dest, true).addFkeys) <==> FkeysPlaced(src, dest, sv)
  {
    var fkeys := Plan(src, dest, true).addFkeys;
    FitUpTo(src, dest, sv, |fkeys|);
    assert fkeys[..|fkeys|] == fkeys;
  }

  ghost predicate Fits(sv: Server, fkeys: seq<TableKey>, k: nat) {
    k <= |fkeys| && FkeysFit(sv, fkeys[..k])
  }

  lemma {:induction false} FitUpTo(src: Catalog, dest: Catalog, sv: Server, k: nat)
    requires GivenServer(src, dest, sv) && k <= |Plan(src, dest, true).addFkeys|
    ensures Fits(Server5(src, dest, sv), Plan(src, dest, true).addFkeys, k) <==> PlacedUpTo(src, dest, sv, k)
  {
    if k == 0 {
    } else {
      FitUpTo(src, dest, sv, k - 1);
      NextPlaced(src, dest, sv, k - 1);
      PlacedNext(src, dest, sv, k - 1);
    }
  }

  lemma PlacedNext(src: Catalog, dest: Catalog, sv: Server, k: nat)
    ensures PlacedUpTo(src, dest, sv, k + 1) <==> PlacedUpTo(src, dest, sv, k) && PlacedAt(src, dest, sv, k)
  {
  }

  lemma NextPlaced(src: Catalog, dest: Catalog, sv: Server, k: nat)
    requires GivenServer(src, dest, sv) && k < |Plan(src, dest, true).addFkeys|
    ensures var fkeys, sv5 := Plan(src, dest, true).addFkeys, Server5(src, dest, sv);
      Fits(sv5, fkeys, k + 1) <==> Fits(sv5, fkeys, k) && PlacedAt(src, dest, sv, k)
  {
    var fkeys, sv5 := Plan(src, dest, true).addFkeys, Server5(src, dest, sv);
    FitNext(sv5, fkeys, k);
    if FkeysFit(sv5, fkeys[..k]) {
      PlacedExactly(src, dest, sv, k);
    }
  }

  lemma FitNext(sv: Server, fkeys: seq<TableKey>, k: nat)
    requires k < |fkeys|
    ensures FkeysFit(sv, fkeys[..k + 1]) <==>
            && FkeysFit(sv, fkeys[..k])
            && fkeys[k].table in sv.db.tables && fkeys[k].table in GeneratedFor(sv, fkeys[..k])
            && FkeyFits(sv.db.tables[fkeys[k].table], GeneratedFor(sv, fkeys[..k])[fkeys[k].table], fkeys[k].constraint)
  {
    assert fkeys[..k + 1][..k] == fkeys[..k] && fkeys[..k + 1][k] == fkeys[k];
  }

  // ----- the whole plan -----

  /** The plan goes through: all tables fit, and all foreign keys have their places. */
  ghost predicate PlanFits(src: Catalog, dest: Catalog, sv: Server) {
    TablesFit(src, dest, sv) && FkeysPlaced(src, dest, sv)
  }

  /** The server that the plan leaves. */
  function Server6(src: Catalog, dest: Catalog, sv: Server): Server {
    WithKeys(Server5(src, dest, sv), Plan(src, dest, true).addFkeys)
  }

  lemma ServerPhase5(src: Catalog, dest: Catalog, sv: Server)
    requires GivenServer(src, dest, sv) && TablesFit(src, dest, sv)
    ensures PerformAll(FkeyAddsOf(Plan(src, dest, true).addFkeys), Server5(src, dest, sv))
         == if FkeysPlaced(src, dest, sv) then Some(Server6(src, dest, sv)) else None
    ensures FkeysPlaced(src, dest, sv) ==> SaneServer(Server6(src, dest, sv))
  {
    var fkeys := Plan(src, dest, true).addFkeys;
    TablesFitExactly(src, dest, sv);
    AddsCanBeAdded(src, dest);
    FkeyAddsPerform(fkeys, Server5(src, dest, sv));
    FkeysPlacedExactly(src, dest, sv);
  }

  lemma PlanPerforms(src: Catalog, dest: Catalog, sv: Server)
    requires GivenServer(src, dest, sv)
    ensures PerformAll(Statements(Plan(src, dest, true)), sv)
         == if PlanFits(src, dest, sv) then Some(Server6(src, dest, sv)) else None
    ensures PlanFits(src, dest, sv) ==> SaneServer(Server6(src, dest, sv))
  {
    var m := Plan(src, dest, true);
    var s1, s2, s3, s4 := FkeyDropsOf(m.dropFkeys), SchemaStatements(m), TableStatements(m),
        AlterationsOf(m.alterTables);
    ServerPhase1(src, dest, sv);
    ServerPhase2(src, dest, sv);
    ServerPhase3(src, dest, sv);
    ServerPhase4(src, dest, sv);
    TablesFitExactly(src, dest, sv);
    if TablesFit(src, dest, sv) {
      ServerPhase5(src, dest, sv);
    }
    PerformAllConcat(s1, s2, sv);
    PerformAllConcat(s1 + s2, s3, sv);
    PerformAllConcat(s1 + s2 + s3, s4, sv);
    PerformAllConcat(s1 + s2 + s3 + s4, FkeyAddsOf(m.addFkeys), sv);
  }

  /** A plan that may drop objects goes through exactly if, table by table, dest gives different names to keys and
      indexes, and keeps one that serves each foreign key that stays, where MySQL has made none of its own; then it
      leaves what dest describes. */
  lemma MigrationReachesExactly(src: Catalog, dest: Catalog, sv: Server)
    requires Consistent(src) && Consistent(dest) && Agree(src, dest) && Describes(src, sv)
    ensures var after := PerformAll(Statements(Plan(src, dest, true)), sv);
      && (after.Some? <==> PlanFits(src, dest, sv))
      && (after.Some? ==> Reached(src, dest, after.value.db) && SaneServer(after.value))
  {
    PlanPerforms(src, dest, sv);
    PerformExecutes(Statements(Plan(src, dest, true)), sv);
    MigrationReaches(src, dest);
  }
}
