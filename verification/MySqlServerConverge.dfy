/** What a MySQL migration leaves to do for the next one: generated indexes that have lost their foreign keys. */
module MySqlServerConverge {
  import opened Common
  import opened Catalogs
  import opened MySqlDatabase
  import opened MySqlPlan
  import opened MySqlSql
  import opened MySqlAlter
  import opened MySqlPhases
  import opened MySqlPlanItems
  import opened MySqlCorrect
  import opened MySqlConverge
  import opened MySqlServer
  import opened MySqlServerRuns
  import opened MySqlServerCorrect

  // ----- reading a catalog from a server -----

  /** A generated index shows once no constraint of the table has its name. */
  function Shown(ts: TableState, g: Generated): map<string, IndexDef> {
    map n | n in g && n !in ts.constraints :: IndexDef(false, g[n])
  }

  function Visible(ts: TableState, g: Generated): TableState {
    ts.(indexes := ts.indexes + Shown(ts, g))
  }

  /** The catalog is what introspection finds on the server. */
  ghost predicate ReadFrom(c: Catalog, sv: Server) {
    && Load(c).schemas == sv.db.schemas && Load(c).tables.Keys == sv.db.tables.Keys
    && forall t :: t in sv.db.tables ==> Load(c).tables[t] == Visible(sv.db.tables[t], GeneratedAt(sv, t))
  }

  /** No generated index has lost its foreign key. */
  ghost predicate NoneLeft(sv: Server) {
    forall t :: t in sv.db.tables ==> NoneShown(sv.db.tables[t], GeneratedAt(sv, t))
  }

  ghost predicate NoneShown(ts: TableState, g: Generated) {
    forall n :: n in g ==> n in ts.constraints
  }

  // ----- a table that has all that dest has -----

  /** It may have more indexes. */
  ghost predicate Includes(collation: string, src: TableDef, dest: TableDef) {
    && Live(dest.indexes).Keys <= Live(src.indexes).Keys
    && ColumnsIncluded(collation, Live(src.columns), Live(dest.columns))
    && AllSettled(Live(src.constraints), Live(dest.constraints))
  }

  ghost predicate SameTables(src: Catalog, dest: Catalog) {
    && (forall s {:trigger Find(src.schemas, s)} :: s != "" ==>
          (Find(src.schemas, s).Some? <==> Find(dest.schemas, s).Some?))
    && forall id {:trigger ObjectAt(src, id)} :: ObjectAt(src, id).Some? <==> ObjectAt(dest, id).Some?
  }

  ghost predicate IncludesAll(src: Catalog, dest: Catalog) {
    && SameTables(src, dest)
    && forall id {:trigger ObjectAt(src, id)} :: ObjectAt(src, id).Some? && ObjectAt(dest, id).Some? ==>
         Includes(src.defaultCollation, ObjectAt(src, id).value.def, ObjectAt(dest, id).value.def)
  }

  lemma NothingKeptWithoutDrops(id: TableID, collation: string, src: Table, dest: Table)
    requires PlainTable(src.def) && PlainTable(dest.def) && Includes(collation, src.def, dest.def)
    ensures !Keeps(Alter(id, collation, src.def, dest.def, false)) && SameFkeyNames(Some(src), Some(dest))
  {
    SettledLists(collation, src.def, dest.def);
    SettledConstraints(src, dest);
    KeysSettled(src.def.constraints, dest.def.constraints);
  }

  lemma NothingOnTable(src: Catalog, dest: Catalog, item: Item)
    requires AllPlain(src) && AllPlain(dest) && IncludesAll(src, dest) && OnTable(item)
    ensures !Contains(Plan(src, dest, false), item)
  {
    var id := TableOf(item);
    PlanContains(src, dest, false, item);
    if ObjectAt(src, id).Some? && ObjectAt(dest, id).Some? {
      NothingKeptWithoutDrops(id, src.defaultCollation, ObjectAt(src, id).value, ObjectAt(dest, id).value);
      if item.AddsFkey? {
        PlanContains(src, dest, true, item);
        AddIsPlanned(src, dest, true, item.key);
        assert !Added(ObjectAt(src, id), ObjectAt(dest, id), item.key.constraint.name);
      }
    }
  }

  /** Then there is nothing to do without dropping objects. */
  lemma NothingWithoutDrops(src: Catalog, dest: Catalog)
    requires AllPlain(src) && AllPlain(dest) && IncludesAll(src, dest)
    ensures Plan(src, dest, false) == NOTHING
  {
    EmptyPlan(Plan(src, dest, false));
    forall item ensures !Contains(Plan(src, dest, false), item) {
      if OnTable(item) {
        NothingOnTable(src, dest, item);
      } else {
        PlanContains(src, dest, false, item);
      }
    }
  }

  // ----- convergence -----

  lemma ShownExactly(ts: TableState, g: Generated)
    requires NamesApart(ts, g)
    ensures (ts.indexes + Shown(ts, g)).Keys == ts.indexes.Keys <==> NoneShown(ts, g)
  {
    forall n | n in g
      ensures n !in ts.indexes && (n !in ts.constraints <==> n in (ts.indexes + Shown(ts, g)).Keys)
    {
    }
  }

  /** A table that the migration has left is settled exactly if it shows no generated index. */
  lemma LeftTableExactly(collation: string, src: Option<Table>, dest: TableDef, ts: TableState, g: Generated,
                         after: TableDef)
    requires TableReached(collation, src, dest, ts) && StoredColumns(after.columns) == Live(after.columns)
    requires StateOf(after) == Visible(ts, g) && NamesApart(ts, g)
    requires src.Some? ==> AgreeTable(StateOf(src.value.def), StateOf(dest))
    ensures Includes(collation, after, dest)
    ensures SettledTable(collation, after, dest) <==> NoneShown(ts, g)
  {
    ReachedPartsAreSettled(collation, src, dest, ts, after);
    ShownExactly(ts, g);
  }

  ghost predicate Left(src: Catalog, dest: Catalog, left: Server) {
    Consistent(src) && Consistent(dest) && Agree(src, dest) && Reached(src, dest, left.db) && SaneServer(left)
  }

  lemma LeftTable(src: Catalog, dest: Catalog, left: Server, after: Catalog, t: TableID)
    requires Left(src, dest, left) && ReadBack(after) && after.defaultCollation == src.defaultCollation
    requires ReadFrom(after, left) && ObjectAt(after, t).Some? && ObjectAt(dest, t).Some?
    ensures t in left.db.tables
    ensures Includes(after.defaultCollation, ObjectAt(after, t).value.def, ObjectAt(dest, t).value.def)
    ensures SettledTable(after.defaultCollation, ObjectAt(after, t).value.def, ObjectAt(dest, t).value.def)
       <==> NoneShown(left.db.tables[t], GeneratedAt(left, t))
  {
    LoadAt(after, t);
    assert Sane(left.db.tables[t], left.generated[t]);
    LeftTableExactly(src.defaultCollation, ObjectAt(src, t), ObjectAt(dest, t).value.def, left.db.tables[t],
                     GeneratedAt(left, t), ObjectAt(after, t).value.def);
  }

  lemma LeftTables(src: Catalog, dest: Catalog, left: Server, after: Catalog)
    requires Left(src, dest, left) && PlainCatalog(after) && ReadFrom(after, left)
    ensures SameTables(after, dest)
  {
    forall s | s != "" ensures Find(after.schemas, s).Some? <==> Find(dest.schemas, s).Some? {
      NamedIsFound(after.schemas, s);
      NamedIsFound(dest.schemas, s);
      assert s in Load(after).schemas <==> s in Names(dest.schemas) + {""};
    }
    forall id ensures ObjectAt(after, id).Some? <==> ObjectAt(dest, id).Some? {
      LoadAt(after, id);
    }
  }

  lemma LeftIsSettledExactly(src: Catalog, dest: Catalog, left: Server, after: Catalog)
    requires Left(src, dest, left) && ReadBack(after) && after.defaultCollation == src.defaultCollation
    requires ReadFrom(after, left)
    ensures IncludesAll(after, dest) && (Settled(after, dest) <==> NoneLeft(left))
  {
    LeftTables(src, dest, left, after);
    forall id | ObjectAt(after, id).Some? && ObjectAt(dest, id).Some?
      ensures id in left.db.tables
      ensures Includes(after.defaultCollation, ObjectAt(after, id).value.def, ObjectAt(dest, id).value.def)
      ensures SettledTable(after.defaultCollation, ObjectAt(after, id).value.def, ObjectAt(dest, id).value.def)
         <==> NoneShown(left.db.tables[id], GeneratedAt(left, id))
    {
      LeftTable(src, dest, left, after, id);
    }
    forall t | t in left.db.tables ensures ObjectAt(after, t).Some? && ObjectAt(dest, t).Some? {
      LoadAt(after, t);
    }
    if Settled(after, dest) {
      forall t | t in left.db.tables ensures NoneShown(left.db.tables[t], GeneratedAt(left, t)) {
        assert SettledTable(after.defaultCollation, ObjectAt(after, t).value.def, ObjectAt(dest, t).value.def);
      }
    }
  }

  /** Once a migration that may drop objects has been run, the next one has nothing to do exactly if no generated index
      has outlived its foreign key; without dropping objects, it has nothing to do in any case. */
  lemma MigrationConvergesExactly(src: Catalog, dest: Catalog, sv: Server, after: Catalog)
    requires Consistent(src) && Consistent(dest) && Agree(src, dest) && Describes(src, sv)
    requires PerformAll(Statements(Plan(src, dest, true)), sv).Some?
    requires ReadBack(after) && after.defaultCollation == src.defaultCollation && AllPlain(dest)
    requires ReadFrom(after, PerformAll(Statements(Plan(src, dest, true)), sv).value)
    requires Find(after.schemas, "").Some? ==> Find(dest.schemas, "").Some?
    ensures Plan(after, dest, true) == NOTHING <==> NoneLeft(PerformAll(Statements(Plan(src, dest, true)), sv).value)
    ensures Plan(after, dest, false) == NOTHING
  {
    var left := PerformAll(Statements(Plan(src, dest, true)), sv).value;
    MigrationReachesExactly(src, dest, sv);
    LeftIsSettledExactly(src, dest, left, after);
    PlanIsEmptyExactly(after, dest);
    NothingWithoutDrops(after, dest);
  }

  // ----- foreign keys that lose their index -----

  /** A foreign key that stays, that nothing in dest serves, and for which MySQL has made no index, stops the plan: the
      plan drops the index that serves it. */
  lemma NeededIndexIsKept(src: Catalog, dest: Catalog, sv: Server, t: TableID, n: string)
    requires Consistent(src) && Consistent(dest) && Agree(src, dest) && Describes(src, sv)
    requires ObjectAt(src, t).Some? && ObjectAt(dest, t).Some? && GeneratedAt(sv, t) == map[]
    requires KeptFkey(ObjectAt(src, t).value.def, ObjectAt(dest, t).value.def, n)
    requires !Serves(StateOf(ObjectAt(dest, t).value.def), Live(ObjectAt(dest, t).value.def.constraints)[n].columns)
    ensures PerformAll(Statements(Plan(src, dest, true)), sv) == None
  {
    MigrationReachesExactly(src, dest, sv);
    var left := LeftAt(src, dest, sv, t);
    assert left == map[];
    assert !Served(StateOf(ObjectAt(dest, t).value.def), left,
                   Live(ObjectAt(dest, t).value.def.constraints)[n].columns);
    assert !TableFits(ObjectAt(src, t), ObjectAt(dest, t).value.def, left);
  }

  /** A generated index stays while foreign keys are added, unless one of them starts with more than its columns. */
  lemma {:induction false} GeneratedStays(sv: Server, fkeys: seq<TableKey>, t: TableID, n: string)
    requires t in sv.db.tables && t in sv.generated && n in sv.generated[t]
    requires !Serves(sv.db.tables[t], sv.generated[t][n]) && !Longer(sv.generated[t], n)
    requires forall i :: 0 <= i < |fkeys| && fkeys[i].table == t ==>
               fkeys[i].constraint.name != n && !(sv.generated[t][n] < fkeys[i].constraint.def.columns)
    ensures var g := GeneratedFor(sv, fkeys);
      t in g && n in g[t] && g[t][n] == sv.generated[t][n] && !Longer(g[t], n)
  {
    if fkeys == [] {
    } else {
      var init, k := fkeys[..|fkeys| - 1], fkeys[|fkeys| - 1];
      assert forall i :: 0 <= i < |init| ==> init[i] == fkeys[i];
      GeneratedStays(sv, init, t, n);
      if k.table == t {
        StaysWithOne(GeneratedFor(sv, init)[t], n, k.constraint, sv.db.tables[t]);
      }
    }
  }

  lemma StaysWithOne(g: Generated, n: string, c: Constraint, ts: TableState)
    requires n in g && !Serves(ts, g[n]) && !Longer(g, n) && c.name != n && !(g[n] < c.def.columns)
    ensures var h := AfterFkey(g, c.name, c.def.columns, ts);
      n in h && h[n] == g[n] && !Longer(h, n)
  {
    var more := g[c.name := c.def.columns];
    forall m | m in more ensures !(more[n] < more[m]) {
      assert m != c.name ==> m in g && more[m] == g[m];
    }
  }

  /** A foreign key is dropped from a table that stays, and its generated index is not redundant: the index outlives
      it, so that the next plan is not empty. */
  lemma IndexOutlives(src: Catalog, dest: Catalog, sv: Server, t: TableID, n: string)
    requires Consistent(src) && Consistent(dest) && Agree(src, dest) && Describes(src, sv)
    requires PerformAll(Statements(Plan(src, dest, true)), sv).Some? && ObjectAt(dest, t).Some?
    requires n in LeftAt(src, dest, sv, t) && n !in Live(ObjectAt(dest, t).value.def.constraints)
    requires !Serves(StateOf(ObjectAt(dest, t).value.def), LeftAt(src, dest, sv, t)[n])
    requires !Longer(LeftAt(src, dest, sv, t), n)
    requires forall k :: k in Plan(src, dest, true).addFkeys && k.table == t ==>
               !(LeftAt(src, dest, sv, t)[n] < k.constraint.def.columns)
    ensures !NoneLeft(PerformAll(Statements(Plan(src, dest, true)), sv).value)
  {
    MigrationReachesExactly(src, dest, sv);
    PlanPerforms(src, dest, sv);
    StaysToTheEnd(src, dest, sv, t, n);
    LeftName(src, dest, sv, t, n);
    FinalTable(src, dest, t);
    assert !NoneShown(Db6(src, dest).tables[t], GeneratedAt(Server6(src, dest, sv), t));
  }

  lemma StaysToTheEnd(src: Catalog, dest: Catalog, sv: Server, t: TableID, n: string)
    requires GivenServer(src, dest, sv) && ObjectAt(dest, t).Some?
    requires n in LeftAt(src, dest, sv, t) && n !in Live(ObjectAt(dest, t).value.def.constraints)
    requires !Serves(StateOf(ObjectAt(dest, t).value.def), LeftAt(src, dest, sv, t)[n])
    requires !Longer(LeftAt(src, dest, sv, t), n)
    requires forall k :: k in Plan(src, dest, true).addFkeys && k.table == t ==>
               !(LeftAt(src, dest, sv, t)[n] < k.constraint.def.columns)
    ensures n in GeneratedAt(Server6(src, dest, sv), t)
  {
    var fkeys, sv5, left := Plan(src, dest, true).addFkeys, Server5(src, dest, sv), LeftAt(src, dest, sv, t);
    Server5At(src, dest, sv, t);
    if ObjectAt(src, t).Some? {
      OldTablesOk(src, dest, t);
    }
    ServesAsDest(src.defaultCollation, t, ObjectAt(src, t), ObjectAt(dest, t).value.def);
    SameServed(sv5.db.tables[t], StateOf(ObjectAt(dest, t).value.def), left, left[n]);
    forall i | 0 <= i < |fkeys| && fkeys[i].table == t
      ensures fkeys[i].constraint.name != n && !(left[n] < fkeys[i].constraint.def.columns)
    {
      AddIsPlanned(src, dest, true, fkeys[i]);
    }
    GeneratedStays(sv5, fkeys, t, n);
  }

  /** If no table that stays loses a foreign key with a generated index, the next plan is empty. */
  lemma KeptKeysLeaveNone(src: Catalog, dest: Catalog, sv: Server)
    requires Consistent(src) && Consistent(dest) && Agree(src, dest) && Describes(src, sv)
    requires PerformAll(Statements(Plan(src, dest, true)), sv).Some?
    requires forall t, n {:trigger n in GeneratedAt(sv, t)} :: ObjectAt(dest, t).Some? && n in GeneratedAt(sv, t) ==>
               n in Live(ObjectAt(dest, t).value.def.constraints)
    ensures NoneLeft(PerformAll(Statements(Plan(src, dest, true)), sv).value)
  {
    PlanPerforms(src, dest, sv);
    forall t | t in Db6(src, dest).tables
      ensures NoneShown(Db6(src, dest).tables[t], GeneratedAt(Server6(src, dest, sv), t))
    {
      forall n | n in GeneratedAt(Server6(src, dest, sv), t) ensures n in Db6(src, dest).tables[t].constraints {
        KeptAtEnd(src, dest, sv, t, n);
      }
    }
  }

  lemma KeptAtEnd(src: Catalog, dest: Catalog, sv: Server, t: TableID, n: string)
    requires GivenServer(src, dest, sv) && t in Db6(src, dest).tables && n in GeneratedAt(Server6(src, dest, sv), t)
    requires forall m :: ObjectAt(dest, t).Some? && m in GeneratedAt(sv, t) ==>
               m in Live(ObjectAt(dest, t).value.def.constraints)
    ensures n in Db6(src, dest).tables[t].constraints
  {
    var fkeys := Plan(src, dest, true).addFkeys;
    WithFkeysAt(Db5(src, dest), fkeys, t);
    Server5At(src, dest, sv, t);
    GeneratedNames(Server5(src, dest, sv), fkeys, t, n);
    FinalTable(src, dest, t);
    if n in LeftAt(src, dest, sv, t) {
      LeftName(src, dest, sv, t, n);
      OldTablesOk(src, dest, t);
      assert n in GeneratedAt(sv, t);
    } else {
      KeyNamesMember(fkeys, t, n);
      var i: nat :| i < |fkeys| && fkeys[i].table == t && fkeys[i].constraint.name == n;
      AddIsPlanned(src, dest, true, fkeys[i]);
    }
  }
}
