/** What is marked as ignored is left alone: nothing in a MySQL plan stems from it. */
module MySqlIgnored {
  import opened Common
  import opened Catalogs
  import opened MySqlPlan
  import opened MySqlPlanItems

  // ----- what is live -----

  ghost predicate HasSchema(c: Catalog, name: string) {
    exists s :: s in c.schemas && s.name == name && !s.ignore
  }

  ghost predicate HasTable(c: Catalog, id: TableID, t: Table) {
    exists s :: s in c.schemas && s.name == id.schema && !s.ignore && t in s.def && t.name == id.name && !t.ignore
  }

  ghost predicate HasSome(c: Catalog, id: TableID) {
    exists t :: HasTable(c, id, t)
  }

  ghost predicate FromLive<T(!new)>(part: seq<Object<T>>, xs: seq<Object<T>>) {
    forall x :: x in part ==> x in xs && !x.ignore
  }

  ghost predicate PairsFromLive(part: seq<(Column, Column)>, xs: seq<Column>, ys: seq<Column>) {
    forall p :: p in part ==> p.0 in xs && !p.0.ignore && p.1 in ys && !p.1.ignore
  }

  /** The parts of an ALTER TABLE are those of two live tables that are not ignored. */
  ghost predicate AlterStems(a: AlterTable, src: TableDef, dest: TableDef) {
    && FromLive(a.dropConstraints, src.constraints) && FromLive(a.dropIndexes, src.indexes)
    && FromLive(a.dropColumns, src.columns) && FromLive(a.addColumns, dest.columns)
    && PairsFromLive(a.alterColumns, src.columns, dest.columns)
    && FromLive(a.createIndexes, dest.indexes) && FromLive(a.addConstraints, dest.constraints)
  }

  /** The item stems from a schema, table, column, constraint or index that is not ignored, nor anything it is part of:
      of src if it goes, of dest if it comes, of both if it changes. */
  ghost predicate Stems(src: Catalog, dest: Catalog, item: Item) {
    match item
    case DropsSchema(s) => HasSchema(src, s)
    case CreatesSchema(s) => HasSchema(dest, s)
    case DropsTable(id) => HasSome(src, id)
    case Creates(t) => HasTable(dest, t.id, t.table)
    case Alters(a) => exists s, d :: HasTable(src, a.id, s) && HasTable(dest, a.id, d) && AlterStems(a, s.def, d.def)
    case DropsFkey(k) =>
      !k.constraint.ignore && exists t :: HasTable(src, k.table, t) && k.constraint in t.def.constraints
    case AddsFkey(k) =>
      !k.constraint.ignore && exists t :: HasTable(dest, k.table, t) && k.constraint in t.def.constraints
  }

  // ----- lists -----

  lemma {:induction false} FoundIsLive<T>(xs: seq<Object<T>>, name: string)
    ensures Find(xs, name).Some? ==>
              Find(xs, name).value in xs && Find(xs, name).value.name == name && !Find(xs, name).value.ignore
  {
    if xs == [] {
    } else {
      FoundIsLive(xs[..|xs| - 1], name);
    }
  }

  lemma {:induction false} MissingIsLive<T(!new)>(xs: seq<Object<T>>, others: seq<Object<T>>)
    ensures FromLive(Missing(xs, others), xs)
  {
    if xs == [] {
    } else {
      MissingIsLive(xs[..|xs| - 1], others);
    }
  }

  lemma {:induction false} KeysAreLive(part: seq<Constraint>, xs: seq<Constraint>)
    requires FromLive(part, xs)
    ensures FromLive(KeysOf(part), xs)
  {
    if part == [] {
    } else {
      assert part == part[..|part| - 1] + [part[|part| - 1]];
      KeysAreLive(part[..|part| - 1], xs);
    }
  }

  lemma {:induction false} ReplacedAreLive(src: seq<Constraint>, dest: seq<Constraint>)
    ensures FromLive(OldKeys(src, dest), src) && FromLive(NewKeys(src, dest), dest)
  {
    if dest == [] {
    } else {
      var init, last := dest[..|dest| - 1], dest[|dest| - 1];
      ReplacedAreLive(src, init);
      FoundIsLive(src, last.name);
    }
  }

  lemma {:induction false} AlteredAreLive(collation: string, src: seq<Column>, dest: seq<Column>)
    ensures PairsFromLive(Altered(collation, src, dest), src, dest)
  {
    if dest == [] {
    } else {
      AlteredAreLive(collation, src, dest[..|dest| - 1]);
      FoundIsLive(src, dest[|dest| - 1].name);
    }
  }

  lemma AlterStemsFromLive(id: TableID, collation: string, src: TableDef, dest: TableDef, dropObjects: bool)
    ensures AlterStems(Alter(id, collation, src, dest, dropObjects), src, dest)
  {
    MissingIsLive(src.constraints, dest.constraints);
    KeysAreLive(Missing(src.constraints, dest.constraints), src.constraints);
    ReplacedAreLive(src.constraints, dest.constraints);
    MissingIsLive(src.indexes, dest.indexes);
    MissingIsLive(src.columns, dest.columns);
    MissingIsLive(dest.columns, src.columns);
    AlteredAreLive(collation, src.columns, dest.columns);
    MissingIsLive(dest.indexes, src.indexes);
  }

  lemma {:induction false} FkeysAreLive(id: TableID, part: seq<Constraint>, xs: seq<Constraint>, k: TableKey)
    requires FromLive(part, xs) && k in FkeysOf(id, part)
    ensures k.table == id && k.constraint in xs && !k.constraint.ignore
  {
    var init, last := part[..|part| - 1], part[|part| - 1];
    assert part == init + [last];
    if k in FkeysOf(id, init) {
      FkeysAreLive(id, init, xs, k);
    }
  }

  // ----- tables -----

  lemma DiffTableStems(src: Catalog, dest: Catalog, s: Schema, d: Schema, t: Table, collation: string,
                       dropObjects: bool, item: Item)
    requires s in src.schemas && !s.ignore && d in dest.schemas && !d.ignore && s.name == d.name && t in d.def
    requires Contains(DiffTable(d.name, collation, s.def, t, dropObjects), item)
    ensures Stems(src, dest, item)
  {
    var id := TableID(d.name, t.name);
    FoundIsLive(s.def, t.name);
    assert HasTable(dest, id, t);
    match Find(s.def, t.name)
    case None => CreateStems(dest, d, t, item);
    case Some(old_) =>
      assert HasTable(src, id, old_);
      AlterStemsFromLive(id, collation, old_.def, t.def, dropObjects);
      MissingIsLive(old_.def.constraints, t.def.constraints);
      MissingIsLive(t.def.constraints, old_.def.constraints);
      if item.DropsFkey? {
        FkeysAreLive(id, Missing(old_.def.constraints, t.def.constraints), old_.def.constraints, item.key);
      } else if item.AddsFkey? {
        FkeysAreLive(id, Missing(t.def.constraints, old_.def.constraints), t.def.constraints, item.key);
      }
  }

  lemma CreateStems(dest: Catalog, d: Schema, t: Table, item: Item)
    requires d in dest.schemas && !d.ignore && t in d.def && !t.ignore && Contains(Create(d.name, t), item)
    ensures Stems(dest, dest, item) && (item.Creates? || item.AddsFkey?)
  {
    assert HasTable(dest, TableID(d.name, t.name), t);
    if item.AddsFkey? {
      LiveFkeysMember(TableID(d.name, t.name), t.def.constraints, item.key);
    }
  }

  lemma DropTableStems(src: Catalog, s: Schema, t: Table, others: seq<Table>, item: Item)
    requires s in src.schemas && !s.ignore && t in s.def && Contains(DropTable(s.name, t, others), item)
    ensures Stems(src, src, item) && (item.DropsTable? || item.DropsFkey?)
  {
    assert HasTable(src, TableID(s.name, t.name), t);
    if item.DropsFkey? {
      LiveFkeysMember(TableID(s.name, t.name), t.def.constraints, item.key);
    }
  }

  lemma DropFkeysStem(src: Catalog, s: Schema, t: Table, item: Item)
    requires s in src.schemas && !s.ignore && t in s.def && Contains(DropFkeysOf(s.name, t), item)
    ensures Stems(src, src, item) && item.DropsFkey?
  {
    assert HasTable(src, TableID(s.name, t.name), t);
    LiveFkeysMember(TableID(s.name, t.name), t.def.constraints, item.key);
  }

  // ----- schemas -----

  lemma DiffSchemaStems(src: Catalog, dest: Catalog, d: Schema, dropObjects: bool, item: Item)
    requires d in dest.schemas && Contains(DiffSchema(src.defaultCollation, src.schemas, d, dropObjects), item)
    ensures Stems(src, dest, item)
  {
    FoundIsLive(src.schemas, d.name);
    match Find(src.schemas, d.name)
    case None =>
      var parts := TableCreations(d.name, d.def);
      SumContains(parts, item);
      if i :| 0 <= i < |parts| && Contains(parts[i], item) {
        CreateStems(dest, d, d.def[i], item);
      } else {
        assert HasSchema(dest, d.name);
      }
    case Some(s) =>
      var drops := TableDrops(d.name, s.def, d.def);
      var diffs := TableDiffs(d.name, src.defaultCollation, s.def, d.def, dropObjects);
      SumContains(drops, item);
      SumContains(diffs, item);
      if i :| 0 <= i < |diffs| && Contains(diffs[i], item) {
        DiffTableStems(src, dest, s, d, d.def[i], src.defaultCollation, dropObjects, item);
      } else {
        var i :| 0 <= i < |drops| && Contains(drops[i], item);
        DropTableStems(src, s, s.def[i], d.def, item);
      }
  }

  lemma DropSchemaStems(src: Catalog, dest: Catalog, s: Schema, item: Item)
    requires s in src.schemas && Contains(DropSchema(s, dest.schemas), item)
    ensures Stems(src, dest, item)
  {
    var parts := FkeyDrops(s.name, s.def);
    SumContains(parts, item);
    if i :| 0 <= i < |parts| && Contains(parts[i], item) {
      DropFkeysStem(src, s, s.def[i], item);
    } else {
      assert HasSchema(src, s.name);
    }
  }

  /** Whatever the catalogs, and whatever in them is ignored: nothing is dropped, created or altered that is ignored, or
      part of something that is. */
  lemma IgnoredIsLeftAlone(src: Catalog, dest: Catalog, dropObjects: bool, item: Item)
    requires Contains(Plan(src, dest, dropObjects), item)
    ensures Stems(src, dest, item)
  {
    var drops := SchemaDrops(src.schemas, dest.schemas);
    var diffs := SchemaDiffs(src.defaultCollation, src.schemas, dest.schemas, dropObjects);
    SumContains(drops, item);
    SumContains(diffs, item);
    if i :| 0 <= i < |diffs| && Contains(diffs[i], item) {
      DiffSchemaStems(src, dest, dest.schemas[i], dropObjects, item);
    } else {
      var i :| 0 <= i < |drops| && Contains(drops[i], item);
      DropSchemaStems(src, dest, src.schemas[i], item);
    }
  }
}
