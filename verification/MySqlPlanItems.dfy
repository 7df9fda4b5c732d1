/** What is in a MySQL plan: exactly the items that the two catalogs call for, each once. */
module MySqlPlanItems {
  import opened Common
  import opened Catalogs
  import opened MySqlPlan
  import opened MySqlPhases

  datatype Item =
    | DropsSchema(schema: string)
    | CreatesSchema(schema: string)
    | DropsTable(id: TableID)
    | Creates(new_: NewTable)
    | Alters(alter: AlterTable)
    | DropsFkey(key: TableKey)
    | AddsFkey(key: TableKey)

  predicate Contains(m: Migration, item: Item) {
    match item
    case DropsSchema(s) => s in m.dropSchemas
    case CreatesSchema(s) => s in m.createSchemas
    case DropsTable(id) => id in m.dropTables
    case Creates(t) => t in m.createTables
    case Alters(a) => a in m.alterTables
    case DropsFkey(k) => k in m.dropFkeys
    case AddsFkey(k) => k in m.addFkeys
  }

  predicate OnTable(item: Item) {
    !item.DropsSchema? && !item.CreatesSchema?
  }

  function TableOf(item: Item): TableID
    requires OnTable(item)
  {
    match item
    case DropsTable(id) => id
    case Creates(t) => t.id
    case Alters(a) => a.id
    case DropsFkey(k) => k.table
    case AddsFkey(k) => k.table
  }

  /** No table is created, altered, or stripped of or given the same foreign key twice. */
  ghost predicate Proper(m: Migration) {
    DistinctKeys(m.dropFkeys) && DistinctKeys(m.addFkeys) && DistinctTables(m.createTables)
        && DistinctAlters(m.alterTables)
  }

  ghost predicate Apart(a: Migration, b: Migration) {
    forall x, y :: Contains(a, x) && Contains(b, y) && OnTable(x) && OnTable(y) ==> TableOf(x) != TableOf(y)
  }

  lemma PlusProper(a: Migration, b: Migration)
    requires Proper(a) && Proper(b) && Apart(a, b)
    ensures Proper(Plus(a, b))
  {
    forall i, k | 0 <= i < |a.dropFkeys| && 0 <= k < |b.dropFkeys|
        ensures a.dropFkeys[i].table != b.dropFkeys[k].table {
      assert Contains(a, DropsFkey(a.dropFkeys[i])) && Contains(b, DropsFkey(b.dropFkeys[k]));
    }
    forall i, k | 0 <= i < |a.addFkeys| && 0 <= k < |b.addFkeys| ensures a.addFkeys[i].table != b.addFkeys[k].table {
      assert Contains(a, AddsFkey(a.addFkeys[i])) && Contains(b, AddsFkey(b.addFkeys[k]));
    }
    forall i, k | 0 <= i < |a.createTables| && 0 <= k < |b.createTables|
        ensures a.createTables[i].id != b.createTables[k].id {
      assert Contains(a, Creates(a.createTables[i])) && Contains(b, Creates(b.createTables[k]));
    }
    forall i, k | 0 <= i < |a.alterTables| && 0 <= k < |b.alterTables|
        ensures a.alterTables[i].id != b.alterTables[k].id {
      assert Contains(a, Alters(a.alterTables[i])) && Contains(b, Alters(b.alterTables[k]));
    }
  }

  lemma PlusContains(a: Migration, b: Migration, item: Item)
    ensures Contains(Plus(a, b), item) <==> Contains(a, item) || Contains(b, item)
  {
  }

  lemma {:induction false} SumContains(ms: seq<Migration>, item: Item)
    ensures Contains(Sum(ms), item) <==> exists i :: 0 <= i < |ms| && Contains(ms[i], item)
  {
    if ms == [] {
    } else {
      var init, last := ms[..|ms| - 1], ms[|ms| - 1];
      SumContains(init, item);
      PlusContains(Sum(init), last, item);
      if i: nat :| i < |init| && Contains(init[i], item) {
        assert ms[i] == init[i];
      }
      if i: nat :| i < |ms| && Contains(ms[i], item) {
        assert i < |init| ==> init[i] == ms[i];
      }
    }
  }

  lemma {:induction false} SumProper(ms: seq<Migration>)
    requires forall i :: 0 <= i < |ms| ==> Proper(ms[i])
    requires forall i, k :: 0 <= i < k < |ms| ==> Apart(ms[i], ms[k])
    ensures Proper(Sum(ms))
  {
    if ms == [] {
    } else {
      var init, last := ms[..|ms| - 1], ms[|ms| - 1];
      SumProper(init);
      forall x, y | Contains(Sum(init), x) && Contains(last, y) && OnTable(x) && OnTable(y)
          ensures TableOf(x) != TableOf(y) {
        SumContains(init, x);
        var i: nat :| i < |init| && Contains(init[i], x);
        assert Apart(ms[i], last);
      }
      PlusProper(Sum(init), last);
    }
  }

  // ----- lists of foreign keys -----

  predicate LiveFkey(cs: seq<Constraint>, c: Constraint) {
    c in cs && !c.ignore && c.def.constraintType == ForeignKey
  }

  lemma {:induction false} LiveFkeysMember(id: TableID, cs: seq<Constraint>, k: TableKey)
    ensures k in LiveFkeys(id, cs) <==> k.table == id && LiveFkey(cs, k.constraint)
  {
    if cs == [] {
    } else {
      var init, last := cs[..|cs| - 1], cs[|cs| - 1];
      assert cs == init + [last];
      LiveFkeysMember(id, init, k);
    }
  }

  lemma {:induction false} LiveFkeysDistinct(id: TableID, cs: seq<Constraint>)
    requires UniqueNames(cs)
    ensures DistinctKeys(LiveFkeys(id, cs))
  {
    if cs == [] {
    } else {
      var init, last := cs[..|cs| - 1], cs[|cs| - 1];
      assert cs == init + [last];
      LiveFkeysDistinct(id, init);
      forall i | 0 <= i < |LiveFkeys(id, init)| ensures LiveFkeys(id, init)[i].constraint.name != last.name {
        LiveFkeysMember(id, init, LiveFkeys(id, init)[i]);
      }
    }
  }

  lemma {:induction false} FkeysAreLive(id: TableID, cs: seq<Constraint>)
    requires forall i :: 0 <= i < |cs| ==> !cs[i].ignore
    ensures FkeysOf(id, cs) == LiveFkeys(id, cs)
  {
    if cs == [] {
    } else {
      FkeysAreLive(id, cs[..|cs| - 1]);
    }
  }

  lemma {:induction false} MissingFkeys(id: TableID, cs: seq<Constraint>, others: seq<Constraint>)
    requires Plain(cs) && Plain(others)
    ensures DistinctKeys(FkeysOf(id, Missing(cs, others)))
    ensures forall k :: k in FkeysOf(id, Missing(cs, others)) <==>
              k.table == id && LiveFkey(cs, k.constraint) && Find(others, k.constraint.name).None?
  {
    MissingMember(cs, others);
    FkeysAreLive(id, Missing(cs, others));
    LiveFkeysDistinct(id, Missing(cs, others));
    forall k
      ensures k in FkeysOf(id, Missing(cs, others)) <==>
        k.table == id && LiveFkey(cs, k.constraint) && Find(others, k.constraint.name).None?
    {
      LiveFkeysMember(id, Missing(cs, others), k);
      FindIsLive(others, k.constraint.name);
    }
  }

  // ----- what the catalogs call for -----

  /** An item on one table, given what the two catalogs have in its place and whether dest
      has its schema. */
  ghost predicate PlannedAt(id: TableID, collation: string, keepsSchema: bool, src: Option<Table>, dest: Option<Table>,
                            dropObjects: bool, item: Item)
  {
    match item
    case DropsSchema(_) => false
    case CreatesSchema(_) => false
    case DropsTable(t) => t == id && dropObjects && keepsSchema && src.Some? && dest.None?
    case Creates(t) => t.id == id && src.None? && dest == Some(t.table)
    case Alters(a) =>
      a.id == id && src.Some? && dest.Some? && Keeps(a)
      && a == Alter(id, collation, src.value.def, dest.value.def, dropObjects)
    case DropsFkey(k) =>
      k.table == id && dropObjects && src.Some? && LiveFkey(src.value.def.constraints, k.constraint)
      && (dest.Some? ==> Find(dest.value.def.constraints, k.constraint.name).None?)
    case AddsFkey(k) =>
      k.table == id && dest.Some? && LiveFkey(dest.value.def.constraints, k.constraint)
      && (src.Some? ==> Find(src.value.def.constraints, k.constraint.name).None?)
  }

  function ObjectAt(c: Catalog, id: TableID): Option<Table> {
    match Find(c.schemas, id.schema)
    case None => None
    case Some(s) => Find(s.def, id.name)
  }

  ghost predicate Planned(src: Catalog, dest: Catalog, dropObjects: bool, item: Item) {
    match item
    case DropsSchema(s) => dropObjects && s != "" && Find(src.schemas, s).Some? && Find(dest.schemas, s).None?
    case CreatesSchema(s) => s != "" && Find(src.schemas, s).None? && Find(dest.schemas, s).Some?
    case _ =>
      PlannedAt(TableOf(item), src.defaultCollation, Find(dest.schemas, TableOf(item).schema).Some?,
                ObjectAt(src, TableOf(item)), ObjectAt(dest, TableOf(item)), dropObjects, item)
  }

  ghost predicate PlainTables(ts: seq<Table>) {
    Plain(ts) && forall i :: 0 <= i < |ts| ==> Plain(ts[i].def.constraints)
  }

  ghost predicate PlainCatalog(c: Catalog) {
    Plain(c.schemas) && forall i :: 0 <= i < |c.schemas| ==> PlainTables(c.schemas[i].def)
  }

  lemma {:induction false} FindAt<T>(xs: seq<Object<T>>, name: string)
    requires Plain(xs)
    ensures Find(xs, name).Some? ==> Find(xs, name).value in xs && Find(xs, name).value.name == name
    ensures forall i :: 0 <= i < |xs| && xs[i].name == name ==> Find(xs, name) == Some(xs[i])
  {
    if xs == [] {
    } else {
      var init := xs[..|xs| - 1];
      FindAt(init, name);
      forall i | 0 <= i < |init| ensures init[i] == xs[i] {
      }
    }
  }

  // ----- one table -----

  lemma DiffTableContains(schema: string, collation: string, src: seq<Table>, table: Table, dropObjects: bool,
                          item: Item)
    requires PlainTables(src) && !table.ignore && Plain(table.def.constraints)
    ensures Contains(DiffTable(schema, collation, src, table, dropObjects), item)
       <==> PlannedAt(TableID(schema, table.name), collation, true, Find(src, table.name), Some(table), dropObjects,
                      item)
    ensures Proper(DiffTable(schema, collation, src, table, dropObjects))
  {
    var id := TableID(schema, table.name);
    FindAt(src, table.name);
    match Find(src, table.name)
    case None =>
      LiveFkeysDistinct(id, table.def.constraints);
      if item.AddsFkey? {
        LiveFkeysMember(id, table.def.constraints, item.key);
      }
    case Some(s) =>
      assert Plain(s.def.constraints);
      MissingFkeys(id, s.def.constraints, table.def.constraints);
      MissingFkeys(id, table.def.constraints, s.def.constraints);
  }

  lemma DropTableContains(schema: string, table: Table, dest: seq<Table>, item: Item)
    requires !table.ignore && Plain(table.def.constraints)
    ensures Contains(DropTable(schema, table, dest), item)
       <==> Find(dest, table.name).None?
            && PlannedAt(TableID(schema, table.name), "", true, Some(table), None, true, item)
    ensures Proper(DropTable(schema, table, dest))
  {
    var id := TableID(schema, table.name);
    LiveFkeysDistinct(id, table.def.constraints);
    if item.DropsFkey? {
      LiveFkeysMember(id, table.def.constraints, item.key);
    }
  }

  lemma CreateContains(schema: string, table: Table, item: Item)
    requires !table.ignore && Plain(table.def.constraints)
    ensures Contains(CreateLive(schema, table), item)
       <==> PlannedAt(TableID(schema, table.name), "", true, None, Some(table), true, item)
    ensures Proper(CreateLive(schema, table))
  {
    var id := TableID(schema, table.name);
    LiveFkeysDistinct(id, table.def.constraints);
    if item.AddsFkey? {
      LiveFkeysMember(id, table.def.constraints, item.key);
    }
  }

  lemma DropFkeysContains(schema: string, table: Table, item: Item)
    requires !table.ignore && Plain(table.def.constraints)
    ensures Contains(DropFkeysOf(schema, table), item)
       <==> PlannedAt(TableID(schema, table.name), "", false, Some(table), None, true, item)
    ensures Proper(DropFkeysOf(schema, table))
  {
    var id := TableID(schema, table.name);
    LiveFkeysDistinct(id, table.def.constraints);
    if item.DropsFkey? {
      LiveFkeysMember(id, table.def.constraints, item.key);
    }
  }

  // ----- the tables of one schema -----

  /** Migrations, each on the table in the same place, are together proper. */
  lemma PartsProper(schema: string, tables: seq<Table>, parts: seq<Migration>)
    requires Plain(tables) && |parts| == |tables| && forall i :: 0 <= i < |parts| ==> Proper(parts[i])
    requires forall i, item :: 0 <= i < |parts| && Contains(parts[i], item) ==>
        OnTable(item) && TableOf(item) == TableID(schema, tables[i].name)
    ensures Proper(Sum(parts))
  {
    forall i, k | 0 <= i < k < |parts| ensures Apart(parts[i], parts[k]) {
      forall x, y | Contains(parts[i], x) && Contains(parts[k], y) && OnTable(x) && OnTable(y)
          ensures TableOf(x) != TableOf(y) {
        assert TableOf(x) == TableID(schema, tables[i].name) && TableOf(y) == TableID(schema, tables[k].name);
      }
    }
    SumProper(parts);
  }

  lemma DiffTablesContains(schema: string, collation: string, src: seq<Table>, dest: seq<Table>, dropObjects: bool,
                           item: Item)
    requires PlainTables(src) && PlainTables(dest)
    ensures Contains(DiffTables(schema, collation, src, dest, dropObjects), item)
       <==> && OnTable(item) && TableOf(item).schema == schema && Find(dest, TableOf(item).name).Some?
            && PlannedAt(TableOf(item), collation, true, Find(src, TableOf(item).name),
                         Find(dest, TableOf(item).name), dropObjects, item)
  {
    var parts := TableDiffs(schema, collation, src, dest, dropObjects);
    SumContains(parts, item);
    if OnTable(item) {
      FindAt(dest, TableOf(item).name);
    }
    forall i | 0 <= i < |dest|
      ensures Contains(parts[i], item)
         <==> PlannedAt(TableID(schema, dest[i].name), collation, true, Find(src, dest[i].name), Some(dest[i]),
                        dropObjects, item)
    {
      DiffTableContains(schema, collation, src, dest[i], dropObjects, item);
    }
  }

  lemma DiffTablesProper(schema: string, collation: string, src: seq<Table>, dest: seq<Table>, dropObjects: bool)
    requires PlainTables(src) && PlainTables(dest)
    ensures Proper(DiffTables(schema, collation, src, dest, dropObjects))
  {
    var parts := TableDiffs(schema, collation, src, dest, dropObjects);
    forall i | 0 <= i < |dest| ensures Proper(parts[i]) {
      DiffTableContains(schema, collation, src, dest[i], dropObjects, DropsSchema(""));
    }
    forall i, item | 0 <= i < |dest| && Contains(parts[i], item)
        ensures OnTable(item) && TableOf(item) == TableID(schema, dest[i].name) {
      DiffTableContains(schema, collation, src, dest[i], dropObjects, item);
    }
    PartsProper(schema, dest, parts);
  }

  lemma DropTablesContains(schema: string, src: seq<Table>, dest: seq<Table>, item: Item)
    requires PlainTables(src) && PlainTables(dest)
    ensures Contains(DropTables(schema, src, dest), item)
       <==> && OnTable(item) && TableOf(item).schema == schema && Find(dest, TableOf(item).name).None?
            && PlannedAt(TableOf(item), "", true, Find(src, TableOf(item).name), None, true, item)
  {
    var parts := TableDrops(schema, src, dest);
    SumContains(parts, item);
    if OnTable(item) {
      FindAt(src, TableOf(item).name);
    }
    forall i | 0 <= i < |src|
      ensures Contains(parts[i], item)
         <==> Find(dest, src[i].name).None? && PlannedAt(TableID(schema, src[i].name), "", true, Some(src[i]), None,
                                                         true, item)
    {
      DropTableContains(schema, src[i], dest, item);
    }
  }

  lemma DropTablesProper(schema: string, src: seq<Table>, dest: seq<Table>)
    requires PlainTables(src)
    ensures Proper(DropTables(schema, src, dest))
  {
    var parts := TableDrops(schema, src, dest);
    forall i | 0 <= i < |src| ensures Proper(parts[i]) {
      DropTableContains(schema, src[i], dest, DropsSchema(""));
    }
    forall i, item | 0 <= i < |src| && Contains(parts[i], item)
        ensures OnTable(item) && TableOf(item) == TableID(schema, src[i].name) {
      DropTableContains(schema, src[i], dest, item);
    }
    PartsProper(schema, src, parts);
  }

  lemma CreateTablesContains(schema: string, dest: seq<Table>, item: Item)
    requires PlainTables(dest)
    ensures Contains(CreateTables(schema, dest), item)
       <==> && OnTable(item) && TableOf(item).schema == schema
            && PlannedAt(TableOf(item), "", true, None, Find(dest, TableOf(item).name), true, item)
  {
    var parts := TableCreations(schema, dest);
    SumContains(parts, item);
    if OnTable(item) {
      FindAt(dest, TableOf(item).name);
    }
    forall i | 0 <= i < |dest|
      ensures Contains(parts[i], item) <==>
          PlannedAt(TableID(schema, dest[i].name), "", true, None, Some(dest[i]), true, item)
    {
      CreateContains(schema, dest[i], item);
    }
  }

  lemma CreateTablesProper(schema: string, dest: seq<Table>)
    requires PlainTables(dest)
    ensures Proper(CreateTables(schema, dest))
  {
    var parts := TableCreations(schema, dest);
    forall i | 0 <= i < |dest| ensures Proper(parts[i]) {
      CreateContains(schema, dest[i], DropsSchema(""));
    }
    forall i, item | 0 <= i < |dest| && Contains(parts[i], item)
        ensures OnTable(item) && TableOf(item) == TableID(schema, dest[i].name) {
      CreateContains(schema, dest[i], item);
    }
    PartsProper(schema, dest, parts);
  }

  lemma DropFkeysAllContains(schema: string, src: seq<Table>, item: Item)
    requires PlainTables(src)
    ensures Contains(DropFkeys(schema, src), item)
       <==> && OnTable(item) && TableOf(item).schema == schema
            && PlannedAt(TableOf(item), "", false, Find(src, TableOf(item).name), None, true, item)
  {
    var parts := FkeyDrops(schema, src);
    SumContains(parts, item);
    if OnTable(item) {
      FindAt(src, TableOf(item).name);
    }
    forall i | 0 <= i < |src|
      ensures Contains(parts[i], item) <==>
          PlannedAt(TableID(schema, src[i].name), "", false, Some(src[i]), None, true, item)
    {
      DropFkeysContains(schema, src[i], item);
    }
  }

  lemma DropFkeysProper(schema: string, src: seq<Table>)
    requires PlainTables(src)
    ensures Proper(DropFkeys(schema, src))
  {
    var parts := FkeyDrops(schema, src);
    forall i | 0 <= i < |src| ensures Proper(parts[i]) {
      DropFkeysContains(schema, src[i], DropsSchema(""));
    }
    forall i, item | 0 <= i < |src| && Contains(parts[i], item)
        ensures OnTable(item) && TableOf(item) == TableID(schema, src[i].name) {
      DropFkeysContains(schema, src[i], item);
    }
    PartsProper(schema, src, parts);
  }

  // ----- the schemas -----

  /** What is planned on one schema. */
  ghost predicate PlannedIn(schema: string, collation: string, src: Option<Schema>, dest: Option<Schema>,
                            dropObjects: bool, item: Item) {
    match item
    case DropsSchema(s) => s == schema && dropObjects && s != "" && src.Some? && dest.None?
    case CreatesSchema(s) => s == schema && s != "" && src.None? && dest.Some?
    case _ =>
      TableOf(item).schema == schema
      && PlannedAt(TableOf(item), collation, dest.Some?, TableIn(src, TableOf(item).name),
                   TableIn(dest, TableOf(item).name), dropObjects, item)
  }

  function TableIn(schema: Option<Schema>, name: string): Option<Table> {
    match schema case None => None case Some(s) => Find(s.def, name)
  }

  lemma DiffSchemaContains(collation: string, src: seq<Schema>, dest: Schema, dropObjects: bool, item: Item)
    requires !dest.ignore && PlainTables(dest.def)
    requires Find(src, dest.name).Some? ==> PlainTables(Find(src, dest.name).value.def)
    ensures Contains(DiffSchema(collation, src, dest, dropObjects), item)
       <==> PlannedIn(dest.name, collation, Find(src, dest.name), Some(dest), dropObjects, item)
  {
    match Find(src, dest.name)
    case None =>
      CreateTablesContains(dest.name, dest.def, item);
    case Some(s) =>
      DropTablesContains(dest.name, s.def, dest.def, item);
      DiffTablesContains(dest.name, collation, s.def, dest.def, dropObjects, item);
  }

  lemma DropSchemaContains(schema: Schema, dest: seq<Schema>, item: Item)
    requires !schema.ignore && PlainTables(schema.def)
    ensures Contains(DropSchema(schema, dest), item)
       <==> Find(dest, schema.name).None? && PlannedIn(schema.name, "", Some(schema), None, true, item)
  {
    DropFkeysAllContains(schema.name, schema.def, item);
  }

  lemma DiffSchemaProper(collation: string, src: seq<Schema>, dest: Schema, dropObjects: bool)
    requires !dest.ignore && PlainTables(dest.def)
    requires Find(src, dest.name).Some? ==> PlainTables(Find(src, dest.name).value.def)
    ensures Proper(DiffSchema(collation, src, dest, dropObjects))
  {
    match Find(src, dest.name)
    case None =>
      CreateTablesProper(dest.name, dest.def);
      PlusProper(NOTHING.(createSchemas := if dest.name != "" then [dest.name] else []),
                 CreateTables(dest.name, dest.def));
    case Some(s) =>
      DropTablesProper(dest.name, s.def, dest.def);
      DiffTablesProper(dest.name, collation, s.def, dest.def, dropObjects);
      var drops := if dropObjects then DropTables(dest.name, s.def, dest.def) else NOTHING;
      var diffs := DiffTables(dest.name, collation, s.def, dest.def, dropObjects);
      forall x, y | Contains(drops, x) && Contains(diffs, y) && OnTable(x) && OnTable(y)
          ensures TableOf(x) != TableOf(y) {
        DropTablesContains(dest.name, s.def, dest.def, x);
        DiffTablesContains(dest.name, collation, s.def, dest.def, dropObjects, y);
      }
      PlusProper(drops, diffs);
  }

  lemma DropSchemaProper(schema: Schema, dest: seq<Schema>)
    requires !schema.ignore && PlainTables(schema.def)
    ensures Proper(DropSchema(schema, dest))
  {
    DropFkeysProper(schema.name, schema.def);
    PlusProper(NOTHING.(dropSchemas := if schema.name != "" then [schema.name] else []),
               DropFkeys(schema.name, schema.def));
  }

  // ----- the whole plan -----

  function SchemaOf(item: Item): string {
    match item
    case DropsSchema(s) => s
    case CreatesSchema(s) => s
    case _ => TableOf(item).schema
  }

  lemma PlannedBySchema(src: Catalog, dest: Catalog, dropObjects: bool, item: Item)
    ensures Planned(src, dest, dropObjects, item)
       <==> PlannedIn(SchemaOf(item), src.defaultCollation, Find(src.schemas, SchemaOf(item)),
                      Find(dest.schemas, SchemaOf(item)), dropObjects, item)
  {
  }

  lemma SchemaDropsContain(src: Catalog, dest: Catalog, item: Item)
    requires PlainCatalog(src) && PlainCatalog(dest)
    ensures Contains(DropSchemas(src.schemas, dest.schemas), item)
       <==> Find(src.schemas, SchemaOf(item)).Some? && Find(dest.schemas, SchemaOf(item)).None? && Planned(src, dest,
           true, item)
  {
    var parts := SchemaDrops(src.schemas, dest.schemas);
    SumContains(parts, item);
    FindAt(src.schemas, SchemaOf(item));
    PlannedBySchema(src, dest, true, item);
    forall i | 0 <= i < |src.schemas|
      ensures Contains(parts[i], item)
         <==> Find(dest.schemas, src.schemas[i].name).None? && PlannedIn(src.schemas[i].name, "",
             Some(src.schemas[i]), None, true, item)
    {
      DropSchemaContains(src.schemas[i], dest.schemas, item);
    }
  }

  lemma SchemaDiffsContain(src: Catalog, dest: Catalog, dropObjects: bool, item: Item)
    requires PlainCatalog(src) && PlainCatalog(dest)
    ensures Contains(DiffSchemas(src.defaultCollation, src.schemas, dest.schemas, dropObjects), item)
       <==> Find(dest.schemas, SchemaOf(item)).Some? && Planned(src, dest, dropObjects, item)
  {
    var parts := SchemaDiffs(src.defaultCollation, src.schemas, dest.schemas, dropObjects);
    SumContains(parts, item);
    FindAt(dest.schemas, SchemaOf(item));
    PlannedBySchema(src, dest, dropObjects, item);
    forall i | 0 <= i < |dest.schemas|
      ensures Contains(parts[i], item)
         <==> PlannedIn(dest.schemas[i].name, src.defaultCollation, Find(src.schemas, dest.schemas[i].name),
                        Some(dest.schemas[i]), dropObjects, item)
    {
      FindAt(src.schemas, dest.schemas[i].name);
      DiffSchemaContains(src.defaultCollation, src.schemas, dest.schemas[i], dropObjects, item);
    }
  }

  /** The plan has exactly the items that the catalogs call for. */
  lemma PlanContains(src: Catalog, dest: Catalog, dropObjects: bool, item: Item)
    requires PlainCatalog(src) && PlainCatalog(dest)
    ensures Contains(Plan(src, dest, dropObjects), item) <==> Planned(src, dest, dropObjects, item)
  {
    SchemaDropsContain(src, dest, item);
    SchemaDiffsContain(src, dest, dropObjects, item);
  }

  lemma SchemasProper(schemas: seq<Schema>, parts: seq<Migration>)
    requires Plain(schemas) && |parts| == |schemas| && forall i :: 0 <= i < |parts| ==> Proper(parts[i])
    requires forall i, item :: 0 <= i < |parts| && Contains(parts[i], item) ==> SchemaOf(item) == schemas[i].name
    ensures Proper(Sum(parts))
  {
    forall i, k | 0 <= i < k < |parts| ensures Apart(parts[i], parts[k]) {
      forall x, y | Contains(parts[i], x) && Contains(parts[k], y) && OnTable(x) && OnTable(y)
          ensures TableOf(x) != TableOf(y) {
        assert SchemaOf(x) == schemas[i].name && SchemaOf(y) == schemas[k].name;
      }
    }
    SumProper(parts);
  }

  /** The plan creates and alters no table twice, and drops and adds no foreign key twice. */
  lemma PlanProper(src: Catalog, dest: Catalog, dropObjects: bool)
    requires PlainCatalog(src) && PlainCatalog(dest)
    ensures Proper(Plan(src, dest, dropObjects))
  {
    var collation := src.defaultCollation;
    var diffs := SchemaDiffs(collation, src.schemas, dest.schemas, dropObjects);
    forall i | 0 <= i < |dest.schemas|
      ensures Proper(diffs[i]) && forall item :: Contains(diffs[i], item) ==> SchemaOf(item) == dest.schemas[i].name
    {
      FindAt(src.schemas, dest.schemas[i].name);
      DiffSchemaProper(collation, src.schemas, dest.schemas[i], dropObjects);
      forall item ensures Contains(diffs[i], item) ==> SchemaOf(item) == dest.schemas[i].name {
        DiffSchemaContains(collation, src.schemas, dest.schemas[i], dropObjects, item);
      }
    }
    SchemasProper(dest.schemas, diffs);
    var drops := if dropObjects then DropSchemas(src.schemas, dest.schemas) else NOTHING;
    if dropObjects {
      DropSchemasProper(src, dest);
    }
    forall x, y | Contains(drops, x) && Contains(Sum(diffs), y) && OnTable(x) && OnTable(y)
        ensures TableOf(x) != TableOf(y) {
      SchemaDropsContain(src, dest, x);
      SchemaDiffsContain(src, dest, dropObjects, y);
    }
    PlusProper(drops, Sum(diffs));
  }

  lemma DropSchemasProper(src: Catalog, dest: Catalog)
    requires PlainCatalog(src) && PlainCatalog(dest)
    ensures Proper(DropSchemas(src.schemas, dest.schemas))
  {
    var parts := SchemaDrops(src.schemas, dest.schemas);
    forall i | 0 <= i < |src.schemas|
      ensures Proper(parts[i]) && forall item :: Contains(parts[i], item) ==> SchemaOf(item) == src.schemas[i].name
    {
      DropSchemaProper(src.schemas[i], dest.schemas);
      forall item ensures Contains(parts[i], item) ==> SchemaOf(item) == src.schemas[i].name {
        DropSchemaContains(src.schemas[i], dest.schemas, item);
      }
    }
    SchemasProper(src.schemas, parts);
  }
}
