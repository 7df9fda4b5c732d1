/** When a MySQL plan is empty; and so that a migration, once run, has nothing left to do. */
module MySqlConverge {
  import opened Common
  import opened Catalogs
  import opened MySqlDatabase
  import opened MySqlPlan
  import opened MySqlSql
  import opened MySqlAlter
  import opened MySqlPlanItems
  import opened MySqlCorrect

  ghost predicate PlainTable(t: TableDef) {
    Plain(t.columns) && Plain(t.constraints) && Plain(t.indexes)
  }

  /** Unique names in every scope, and nothing ignored. */
  ghost predicate AllPlain(c: Catalog) {
    PlainCatalog(c) && forall id {:trigger ObjectAt(c, id)} :: ObjectAt(c, id).Some? ==>
        PlainTable(ObjectAt(c, id).value.def)
  }

  // ----- when nothing is planned -----

  /** The tables differ at most in CHECKs, in columns that dest does not have, and in what the
      planner does not compare. */
  ghost predicate SettledTable(collation: string, src: TableDef, dest: TableDef) {
    && Live(src.indexes).Keys == Live(dest.indexes).Keys
    && ColumnsIncluded(collation, Live(src.columns), Live(dest.columns))
    && AllSettled(Live(src.constraints), Live(dest.constraints))
  }

  /** Constraint n is in both, on the same columns if it is a primary key; or in neither; or it is a CHECK. */
  predicate SettledAt(src: map<string, ConstraintDef>, dest: map<string, ConstraintDef>, n: string) {
    && (n in src && src[n].constraintType != Check ==> n in dest)
    && (n in dest && dest[n].constraintType != Check ==> n in src && SameKeyColumns(src[n], dest[n]))
  }

  predicate SameKeyColumns(src: ConstraintDef, dest: ConstraintDef) {
    dest.constraintType == PrimaryKey ==> src.columns == dest.columns
  }

  ghost predicate AllSettled(src: map<string, ConstraintDef>, dest: map<string, ConstraintDef>) {
    forall n :: SettledAt(src, dest, n)
  }

  ghost predicate Settled(src: Catalog, dest: Catalog) {
    && (forall s {:trigger Find(src.schemas, s)} :: s != "" ==>
       (Find(src.schemas, s).Some? <==> Find(dest.schemas, s).Some?))
    && (forall id {:trigger ObjectAt(src, id)} {:trigger ObjectAt(dest, id)} :: ObjectAt(src, id).Some? <==>
       ObjectAt(dest, id).Some?)
    && (forall id {:trigger ObjectAt(src, id)} {:trigger ObjectAt(dest, id)} ::
       ObjectAt(src, id).Some? && ObjectAt(dest, id).Some? ==>
          SettledTable(src.defaultCollation, ObjectAt(src, id).value.def, ObjectAt(dest, id).value.def))
  }

  lemma EmptyPart<T(!new)>(xs: seq<Object<T>>)
    requires Plain(xs)
    ensures xs == [] <==> forall n :: n !in Live(xs)
  {
    LiveOf(xs);
    if xs != [] {
      assert xs[0] in xs;
    }
  }

  /** The lists about indexes and columns. */
  lemma SettledLists(collation: string, src: TableDef, dest: TableDef)
    requires PlainTable(src) && PlainTable(dest)
    ensures Missing(src.indexes, dest.indexes) == [] <==> Live(src.indexes).Keys <= Live(dest.indexes).Keys
    ensures Missing(dest.indexes, src.indexes) == [] <==> Live(dest.indexes).Keys <= Live(src.indexes).Keys
    ensures Missing(dest.columns, src.columns) == [] && Altered(collation, src.columns, dest.columns) == []
       <==> ColumnsIncluded(collation, Live(src.columns), Live(dest.columns))
  {
    EmptyMissing(src.indexes, dest.indexes);
    EmptyMissing(dest.indexes, src.indexes);
    EmptyMissing(dest.columns, src.columns);
    AlteredMember(collation, src.columns, dest.columns);
    EmptyPart(Seconds(Altered(collation, src.columns, dest.columns)));
    forall n ensures n in Live(Seconds(Altered(collation, src.columns, dest.columns)))
        <==> n in Live(dest.columns) && n in Live(src.columns) && !SameColumn(collation, Live(src.columns)[n],
            Live(dest.columns)[n])
    {
      AlteredPart(collation, src.columns, dest.columns, n);
    }
  }

  lemma EmptyMissing<T(!new)>(xs: seq<Object<T>>, others: seq<Object<T>>)
    requires Plain(xs) && Plain(others)
    ensures Missing(xs, others) == [] <==> Live(xs).Keys <= Live(others).Keys
  {
    MissingMember(xs, others);
    EmptyPart(Missing(xs, others));
    forall n ensures n in Live(Missing(xs, others)) <==> n in Live(xs) && n !in Live(others) {
      MissingPart(xs, others, n);
    }
  }

  lemma KeysOfPart(cs: seq<Constraint>, n: string)
    requires Plain(cs)
    ensures n in Live(KeysOf(cs)) <==> n in Live(cs) && IsKeyDef(Live(cs)[n])
  {
    KeysOfMember(cs);
    LiveOfPart(cs, KeysOf(cs), n);
  }

  lemma NoKeysDropped(src: seq<Constraint>, dest: seq<Constraint>)
    requires Plain(src) && Plain(dest)
    ensures KeysOf(Missing(src, dest)) == [] <==> forall n :: n in Live(src) && IsKeyDef(Live(src)[n]) ==>
        n in Live(dest)
  {
    var missing := Missing(src, dest);
    assert Plain(missing) by {
      MissingMember(src, dest);
    }
    if KeysOf(missing) == [] {
      forall n | n in Live(src) && IsKeyDef(Live(src)[n]) ensures n in Live(dest) {
        KeysOfPart(missing, n);
        MissingPart(src, dest, n);
      }
    } else {
      var n := KeysOf(missing)[0].name;
      KeysOfMember(missing);
      EmptyPart(KeysOf(missing));
      LiveOf(KeysOf(missing));
      assert KeysOf(missing)[0] in KeysOf(missing);
      KeysOfPart(missing, n);
      MissingPart(src, dest, n);
    }
  }

  /** The primary keys are on the same columns. */
  ghost predicate SamePrimaryKeys(src: map<string, ConstraintDef>, dest: map<string, ConstraintDef>) {
    forall n :: n in dest && n in src ==> SameKeyColumns(src[n], dest[n])
  }

  lemma NoKeysReplaced(src: seq<Constraint>, dest: seq<Constraint>)
    requires Plain(src) && Plain(dest)
    ensures OldKeys(src, dest) == [] <==> SamePrimaryKeys(Live(src), Live(dest))
  {
    OldKeysMember(src, dest);
    EmptyPart(OldKeys(src, dest));
    forall n
      ensures n in Live(OldKeys(src, dest)) <==>
          n in Live(src) && n in Live(dest) && !SameKeyColumns(Live(src)[n], Live(dest)[n])
    {
      LiveOfPart(src, OldKeys(src, dest), n);
    }
  }

  lemma NoKeysAdded(src: seq<Constraint>, dest: seq<Constraint>)
    requires Plain(src) && Plain(dest)
    ensures NewKeys(src, dest) == []
       <==> SamePrimaryKeys(Live(src), Live(dest)) && forall n :: n in Live(dest) && IsKeyDef(Live(dest)[n]) ==>
           n in Live(src)
  {
    NewKeysMember(src, dest);
    EmptyPart(NewKeys(src, dest));
    forall n
      ensures n in Live(NewKeys(src, dest))
         <==> n in Live(dest) && (if n in Live(src) then !SameKeyColumns(Live(src)[n], Live(dest)[n])
             else IsKeyDef(Live(dest)[n]))
    {
      LiveOfPart(dest, NewKeys(src, dest), n);
    }
  }

  /** No foreign key of the table is dropped or added. */
  ghost predicate SameFkeyNames(src: Option<Table>, dest: Option<Table>) {
    forall n :: !Dropped(src, dest, n) && !Added(src, dest, n)
  }

  /** As far as keys go. */
  predicate KeySettledAt(src: map<string, ConstraintDef>, dest: map<string, ConstraintDef>, n: string) {
    && (n in src && IsKeyDef(src[n]) ==> n in dest)
    && (n in dest && IsKeyDef(dest[n]) ==> n in src)
    && (n in dest && n in src ==> SameKeyColumns(src[n], dest[n]))
  }

  ghost predicate KeysAreSettled(src: map<string, ConstraintDef>, dest: map<string, ConstraintDef>) {
    forall n :: KeySettledAt(src, dest, n)
  }

  lemma KeysSettled(src: seq<Constraint>, dest: seq<Constraint>)
    requires Plain(src) && Plain(dest)
    ensures KeysOf(Missing(src, dest)) == [] && OldKeys(src, dest) == [] && NewKeys(src, dest) == []
       <==> KeysAreSettled(Live(src), Live(dest))
  {
    NoKeysDropped(src, dest);
    NoKeysReplaced(src, dest);
    NoKeysAdded(src, dest);
    var s, d := Live(src), Live(dest);
    if KeysAreSettled(s, d) {
      assert forall n :: n in s ==> KeySettledAt(s, d, n);
      assert forall n :: n in d ==> KeySettledAt(s, d, n);
    }
  }

  lemma SettledExactly(id: TableID, collation: string, src: Table, dest: Table)
    requires PlainTable(src.def) && PlainTable(dest.def)
    ensures SettledTable(collation, src.def, dest.def)
       <==> !Keeps(Alter(id, collation, src.def, dest.def, true)) && SameFkeyNames(Some(src), Some(dest))
  {
    SettledLists(collation, src.def, dest.def);
    KeysSettled(src.def.constraints, dest.def.constraints);
    SettledConstraints(src, dest);
  }

  /** The constraints of two tables are settled when no key and no foreign key is missing. */
  lemma SettledConstraints(src: Table, dest: Table)
    ensures AllSettled(Live(src.def.constraints), Live(dest.def.constraints))
       <==> KeysAreSettled(Live(src.def.constraints), Live(dest.def.constraints)) && SameFkeyNames(Some(src),
           Some(dest))
  {
    var s, d := Live(src.def.constraints), Live(dest.def.constraints);
    forall n
      ensures SettledAt(s, d, n) <==>
          KeySettledAt(s, d, n) && !Dropped(Some(src), Some(dest), n) && !Added(Some(src), Some(dest), n)
    {
    }
    if AllSettled(s, d) {
      forall n ensures KeySettledAt(s, d, n) && !Dropped(Some(src), Some(dest), n) && !Added(Some(src), Some(dest), n) {
        assert SettledAt(s, d, n);
      }
    } else {
      var n :| !SettledAt(s, d, n);
      assert !KeySettledAt(s, d, n) || Dropped(Some(src), Some(dest), n) || Added(Some(src), Some(dest), n);
    }
  }

  // ----- the whole plan -----

  lemma EmptyPlan(m: Migration)
    ensures m == NOTHING <==> forall item :: !Contains(m, item)
  {
    if m != NOTHING {
      if m.dropFkeys != [] {
        assert Contains(m, DropsFkey(m.dropFkeys[0]));
      } else if m.dropSchemas != [] {
        assert Contains(m, DropsSchema(m.dropSchemas[0]));
      } else if m.createSchemas != [] {
        assert Contains(m, CreatesSchema(m.createSchemas[0]));
      } else if m.dropTables != [] {
        assert Contains(m, DropsTable(m.dropTables[0]));
      } else if m.createTables != [] {
        assert Contains(m, Creates(m.createTables[0]));
      } else if m.alterTables != [] {
        assert Contains(m, Alters(m.alterTables[0]));
      } else {
        assert Contains(m, AddsFkey(m.addFkeys[0]));
      }
    }
  }

  lemma SettledPlansNothing(src: Catalog, dest: Catalog, item: Item)
    requires AllPlain(src) && AllPlain(dest) && Settled(src, dest)
    ensures !Contains(Plan(src, dest, true), item)
  {
    PlanContains(src, dest, true, item);
    if OnTable(item) {
      var id := TableOf(item);
      if ObjectAt(src, id).Some? && ObjectAt(dest, id).Some? {
        SettledTablePlansNothing(src, dest, item);
      }
    }
  }

  lemma SettledTablePlansNothing(src: Catalog, dest: Catalog, item: Item)
    requires PlainCatalog(src) && PlainCatalog(dest) && OnTable(item)
    requires ObjectAt(src, TableOf(item)).Some? && ObjectAt(dest, TableOf(item)).Some?
    requires PlainTable(ObjectAt(src, TableOf(item)).value.def) && PlainTable(ObjectAt(dest, TableOf(item)).value.def)
    requires SettledTable(src.defaultCollation, ObjectAt(src, TableOf(item)).value.def,
                          ObjectAt(dest, TableOf(item)).value.def)
    ensures !Contains(Plan(src, dest, true), item)
  {
    var s, d := ObjectAt(src, TableOf(item)), ObjectAt(dest, TableOf(item));
    SettledExactly(TableOf(item), src.defaultCollation, s.value, d.value);
    PlanContains(src, dest, true, item);
    if item.DropsFkey? && !item.key.constraint.ignore {
      assert !Dropped(s, d, item.key.constraint.name);
      DropIsPlanned(src, dest, item.key);
    } else if item.AddsFkey? {
      assert !Added(s, d, item.key.constraint.name);
      AddIsPlanned(src, dest, true, item.key);
    }
  }

  /** A plan that may drop objects is empty exactly when the catalogs are settled. */
  lemma PlanIsEmptyExactly(src: Catalog, dest: Catalog)
    requires AllPlain(src) && AllPlain(dest) && (Find(src.schemas, "").Some? ==> Find(dest.schemas, "").Some?)
    ensures Plan(src, dest, true) == NOTHING <==> Settled(src, dest)
  {
    var m := Plan(src, dest, true);
    EmptyPlan(m);
    if Settled(src, dest) {
      forall item ensures !Contains(m, item) {
        SettledPlansNothing(src, dest, item);
      }
    }
    if m == NOTHING {
      EmptyIsSettled(src, dest);
    }
  }

  lemma NothingPlanned(src: Catalog, dest: Catalog, item: Item)
    requires PlainCatalog(src) && PlainCatalog(dest) && Plan(src, dest, true) == NOTHING
    ensures !Planned(src, dest, true, item)
  {
    PlanContains(src, dest, true, item);
  }

  lemma EmptyKeepsSchema(src: Catalog, dest: Catalog, s: string)
    requires PlainCatalog(src) && PlainCatalog(dest) && Plan(src, dest, true) == NOTHING && s != ""
    ensures Find(src.schemas, s).Some? <==> Find(dest.schemas, s).Some?
  {
    NothingPlanned(src, dest, DropsSchema(s));
    NothingPlanned(src, dest, CreatesSchema(s));
  }

  lemma EmptyKeepsTable(src: Catalog, dest: Catalog, id: TableID)
    requires PlainCatalog(src) && PlainCatalog(dest) && Plan(src, dest, true) == NOTHING
    requires Find(src.schemas, id.schema).Some? ==> Find(dest.schemas, id.schema).Some?
    ensures ObjectAt(src, id).Some? <==> ObjectAt(dest, id).Some?
  {
    NothingPlanned(src, dest, DropsTable(id));
    if ObjectAt(dest, id).Some? {
      NothingPlanned(src, dest, Creates(NewTable(id, ObjectAt(dest, id).value)));
    }
  }

  lemma EmptyIsSettled(src: Catalog, dest: Catalog)
    requires AllPlain(src) && AllPlain(dest) && (Find(src.schemas, "").Some? ==> Find(dest.schemas, "").Some?)
    requires Plan(src, dest, true) == NOTHING
    ensures Settled(src, dest)
  {
    forall s | s != "" ensures Find(src.schemas, s).Some? <==> Find(dest.schemas, s).Some? {
      EmptyKeepsSchema(src, dest, s);
    }
    forall id ensures ObjectAt(src, id).Some? <==> ObjectAt(dest, id).Some? {
      EmptyKeepsTable(src, dest, id);
    }
    forall id | ObjectAt(src, id).Some? && ObjectAt(dest, id).Some?
      ensures SettledTable(src.defaultCollation, ObjectAt(src, id).value.def, ObjectAt(dest, id).value.def)
    {
      EmptyTableIsSettled(src, dest, id);
    }
  }

  lemma EmptyTableIsSettled(src: Catalog, dest: Catalog, id: TableID)
    requires PlainCatalog(src) && PlainCatalog(dest) && Plan(src, dest, true) == NOTHING
    requires ObjectAt(src, id).Some? && ObjectAt(dest, id).Some?
    requires PlainTable(ObjectAt(src, id).value.def) && PlainTable(ObjectAt(dest, id).value.def)
    ensures SettledTable(src.defaultCollation, ObjectAt(src, id).value.def, ObjectAt(dest, id).value.def)
  {
    EmptyAltersNothing(src, dest, id);
    EmptyKeepsFkeys(src, dest, id);
    SettledExactly(id, src.defaultCollation, ObjectAt(src, id).value, ObjectAt(dest, id).value);
  }

  lemma EmptyAltersNothing(src: Catalog, dest: Catalog, id: TableID)
    requires PlainCatalog(src) && PlainCatalog(dest) && Plan(src, dest, true) == NOTHING
    requires ObjectAt(src, id).Some? && ObjectAt(dest, id).Some?
    ensures !Keeps(AlterOf(src, dest, id))
  {
    NothingPlanned(src, dest, Alters(AlterOf(src, dest, id)));
  }

  lemma EmptyKeepsFkeys(src: Catalog, dest: Catalog, id: TableID)
    requires PlainCatalog(src) && PlainCatalog(dest) && Plan(src, dest, true) == NOTHING
    requires ObjectAt(src, id).Some? && ObjectAt(dest, id).Some?
    ensures SameFkeyNames(ObjectAt(src, id), ObjectAt(dest, id))
  {
    forall n ensures !Dropped(ObjectAt(src, id), ObjectAt(dest, id), n)
        && !Added(ObjectAt(src, id), ObjectAt(dest, id), n) {
      EmptyDropsNoFkey(src, dest, id, n);
      EmptyAddsNoFkey(src, dest, id, n);
    }
  }

  lemma EmptyDropsNoFkey(src: Catalog, dest: Catalog, id: TableID, n: string)
    requires PlainCatalog(src) && PlainCatalog(dest) && Plan(src, dest, true) == NOTHING
    requires ObjectAt(src, id).Some? && ObjectAt(dest, id).Some?
    ensures !Dropped(ObjectAt(src, id), ObjectAt(dest, id), n)
  {
    if n in Live(ObjectAt(src, id).value.def.constraints) {
      DropIsPlanned(src, dest, TableKey(id, Object(n, false, Live(ObjectAt(src, id).value.def.constraints)[n])));
    }
  }

  lemma EmptyAddsNoFkey(src: Catalog, dest: Catalog, id: TableID, n: string)
    requires PlainCatalog(src) && PlainCatalog(dest) && Plan(src, dest, true) == NOTHING
    requires ObjectAt(src, id).Some? && ObjectAt(dest, id).Some?
    ensures !Added(ObjectAt(src, id), ObjectAt(dest, id), n)
  {
    if n in Live(ObjectAt(dest, id).value.def.constraints) {
      AddIsPlanned(src, dest, true, TableKey(id, Object(n, false, Live(ObjectAt(dest, id).value.def.constraints)[n])));
    }
  }

  // ----- convergence -----

  /** Without dropping objects, less is planned. */
  lemma EmptyWithoutDrops(src: Catalog, dest: Catalog)
    requires PlainCatalog(src) && PlainCatalog(dest) && Plan(src, dest, true) == NOTHING
    ensures Plan(src, dest, false) == NOTHING
  {
    EmptyPlan(Plan(src, dest, false));
    forall item ensures !Contains(Plan(src, dest, false), item) {
      PlanContains(src, dest, false, item);
      NothingPlanned(src, dest, item);
      if item.Alters? && ObjectAt(src, item.alter.id).Some? && ObjectAt(dest, item.alter.id).Some? {
        NothingPlanned(src, dest, Alters(AlterOf(src, dest, item.alter.id)));
        LessKept(item.alter.id, src.defaultCollation, ObjectAt(src, item.alter.id).value.def,
                 ObjectAt(dest, item.alter.id).value.def);
      }
    }
  }

  lemma LessKept(id: TableID, collation: string, src: TableDef, dest: TableDef)
    ensures Keeps(Alter(id, collation, src, dest, false)) ==> Keeps(Alter(id, collation, src, dest, true))
  {
  }

  /** A catalog needs no migration to itself. */
  lemma NothingToItself(c: Catalog, dropObjects: bool)
    requires AllPlain(c)
    ensures Plan(c, c, dropObjects) == NOTHING
  {
    PlanIsEmptyExactly(c, c);
    EmptyWithoutDrops(c, c);
  }

  /** A catalog read back from MySQL: its columns have no identity. */
  ghost predicate ReadBack(c: Catalog) {
    AllPlain(c) && forall id {:trigger ObjectAt(c, id)} :: ObjectAt(c, id).Some? ==>
      StoredColumns(ObjectAt(c, id).value.def.columns) == Live(ObjectAt(c, id).value.def.columns)
  }

  /** Of a table that a migration has left, the constraints and the columns are settled. */
  lemma ReachedPartsAreSettled(collation: string, src: Option<Table>, dest: TableDef, ts: TableState, after: TableDef)
    requires TableReached(collation, src, dest, ts) && StoredColumns(after.columns) == Live(after.columns)
    requires StoredColumns(after.columns) == ts.columns && Live(after.constraints) == ts.constraints
    requires src.Some? ==> AgreeTable(StateOf(src.value.def), StateOf(dest))
    ensures ColumnsIncluded(collation, Live(after.columns), Live(dest.columns))
    ensures AllSettled(Live(after.constraints), Live(dest.constraints))
  {
    forall n | n in Live(dest.columns)
      ensures n in Live(after.columns) && SameColumn(collation, Live(after.columns)[n], Live(dest.columns)[n])
    {
      assert n in ts.columns;
    }
  }
}
