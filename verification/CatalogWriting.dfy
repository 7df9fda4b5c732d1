/** Writing one catalog into another, through a cache of the other. */
module CatalogWriting {
  import opened Common
  import opened Catalogs
  import opened CachePositions
  import opened CacheIndexing
  import opened CatalogMerging
  import opened CatalogCaches

  // ----- columns and indexes -----

  method WriteColumn(cache: CatalogCache, c: Column, dest: TableObject)
    requires cache.KnowsColumns(dest)
    modifies cache`columns, dest`columns
    ensures cache.KnowsColumns(dest) && SameElsewhere(old(cache.columns), cache.columns, dest.id)
    ensures dest.columns == Upserted(old(dest.columns), c)
  {
    var i := cache.GetOrCreateColumn(dest, c.name, c.def.columnType);
    AgreesUpdate(cache.columns, dest.id, dest.columns, i, c);
    dest.columns := dest.columns[i := c];
  }

  method WriteColumns(cache: CatalogCache, src: seq<Column>, dest: TableObject)
    requires cache.KnowsColumns(dest)
    modifies cache`columns, dest`columns
    ensures cache.KnowsColumns(dest) && SameElsewhere(old(cache.columns), cache.columns, dest.id)
    ensures dest.columns == Merged(old(dest.columns), src)
  {
    for k := 0 to |src|
      invariant cache.KnowsColumns(dest) && SameElsewhere(old(cache.columns), cache.columns, dest.id)
      invariant dest.columns == Merged(old(dest.columns), src[..k])
    {
      assert src[..k + 1][..k] == src[..k];
      ghost var before := cache.columns;
      WriteColumn(cache, src[k], dest);
      SameElsewhereTwice(old(cache.columns), before, cache.columns, dest.id);
    }
    assert src[..|src|] == src;
  }

  method WriteIndex(cache: CatalogCache, x: Index, dest: TableObject)
    requires cache.KnowsIndexes(dest)
    modifies cache`indexes, dest`indexes
    ensures cache.KnowsIndexes(dest) && SameElsewhere(old(cache.indexes), cache.indexes, dest.id)
    ensures dest.indexes == Upserted(old(dest.indexes), x)
  {
    var i := cache.GetOrCreateIndex(dest, x.name, x.def.columns);
    AgreesUpdate(cache.indexes, dest.id, dest.indexes, i, x);
    dest.indexes := dest.indexes[i := x];
  }

  method WriteIndexes(cache: CatalogCache, src: seq<Index>, dest: TableObject)
    requires cache.KnowsIndexes(dest)
    modifies cache`indexes, dest`indexes
    ensures cache.KnowsIndexes(dest) && SameElsewhere(old(cache.indexes), cache.indexes, dest.id)
    ensures dest.indexes == Merged(old(dest.indexes), src)
  {
    for k := 0 to |src|
      invariant cache.KnowsIndexes(dest) && SameElsewhere(old(cache.indexes), cache.indexes, dest.id)
      invariant dest.indexes == Merged(old(dest.indexes), src[..k])
    {
      assert src[..k + 1][..k] == src[..k];
      ghost var before := cache.indexes;
      WriteIndex(cache, src[k], dest);
      SameElsewhereTwice(old(cache.indexes), before, cache.indexes, dest.id);
    }
    assert src[..|src|] == src;
  }

  // ----- constraints -----

  /** What is in the place of the constraint, if anything, has its type. */
  ghost predicate KeepsType(s: Slots, c: Constraint) {
    Place(s, c.name).Some? ==> s.list[Place(s, c.name).value].def.constraintType == c.def.constraintType
  }

  /** That is so for each constraint when it is its turn. */
  ghost predicate KeepsTypes(s: Slots, src: seq<Constraint>) {
    src == [] || (KeepsTypes(s, src[..|src| - 1]) && KeepsType(MergedSlots(s, src[..|src| - 1]), src[|src| - 1]))
  }

  ghost predicate OfOneType(c: Constraint, d: Constraint) {
    c.name == d.name ==> c.def.constraintType == d.def.constraintType
  }

  /** Constraints of one name have one type. */
  ghost predicate SameTypes(a: seq<Constraint>, b: seq<Constraint>) {
    forall i, k {:trigger OfOneType(a[i], b[k])} :: 0 <= i < |a| && 0 <= k < |b| ==> OfOneType(a[i], b[k])
  }

  /** If constraints of one name have one type, no place changes its type. */
  lemma {:induction false} TypesAreKept(s: Slots, src: seq<Constraint>)
    requires s.unnamed == LastIndex(s.list, "") && SameTypes(s.list, src) && SameTypes(src, src)
    ensures KeepsTypes(s, src) && SameTypes(MergedSlots(s, src).list, src)
  {
    OneTypeEach(s, src, src);
  }

  lemma {:induction false} OneTypeEach(s: Slots, src: seq<Constraint>, all: seq<Constraint>)
    requires s.unnamed == LastIndex(s.list, "") && src <= all && SameTypes(s.list, all) && SameTypes(all, all)
    ensures KeepsTypes(s, src) && SameTypes(MergedSlots(s, src).list, all)
  {
    if src == [] {
    } else {
      var init, c := src[..|src| - 1], src[|src| - 1];
      var done := MergedSlots(s, init);
      OneTypeEach(s, init, all);
      SlotsAreMerged(s, init);
      assert c == all[|src| - 1];
      if Place(done, c.name).Some? {
        assert OfOneType(done.list[Place(done, c.name).value], c);
      }
      OneTypeMore(done, c, all, |src| - 1);
    }
  }

  lemma OneTypeMore(s: Slots, c: Constraint, all: seq<Constraint>, j: nat)
    requires j < |all| && all[j] == c && SameTypes(s.list, all) && SameTypes(all, all)
    ensures SameTypes(Put(s, c).list, all)
  {
    forall i, k | 0 <= i < |Put(s, c).list| && 0 <= k < |all| ensures OfOneType(Put(s, c).list[i], all[k]) {
      assert OfOneType(all[j], all[k]);
      if i < |s.list| {
        assert OfOneType(s.list[i], all[k]);
      }
    }
  }

  method WriteConstraint(cache: CatalogCache, c: Constraint, dest: TableObject)
    requires cache.KnowsNames(dest)
    modifies cache`constraints, cache`pkeys, cache`fkeys, dest`constraints
    ensures cache.KnowsNames(dest) && cache.SparesKeys(dest.id)
    ensures cache.SlotsOf(dest) == Put(old(cache.SlotsOf(dest)), c)
    ensures old(cache.KnowsKeys(dest)) && KeepsType(old(cache.SlotsOf(dest)), c) ==> cache.KnowsKeys(dest)
  {
    ghost var before := cache.SlotsOf(dest);
    NotedIsLive(cache.constraints, dest.id, dest.constraints, c.name);
    assert Place(before, c.name) == Noted(cache.constraints, dest.id, dest.constraints, c.name);
    var i := cache.GetOrCreateConstraint(dest, c.name, c.def.constraintType, c.def.columns);
    assert dest.constraints[i].name == c.name;
    Overwrite(cache, dest, i, c);
  }

  /** The place of a constraint is assigned to directly, which the cache need not know of. */
  method Overwrite(cache: CatalogCache, dest: TableObject, i: nat, c: Constraint)
    requires cache.KnowsNames(dest) && i < |dest.constraints| && dest.constraints[i].name == c.name
    modifies dest`constraints
    ensures cache.KnowsNames(dest) && dest.constraints == old(dest.constraints)[i := c]
    ensures old(cache.KnowsKeys(dest) && dest.constraints[i].def.constraintType == c.def.constraintType) ==>
              cache.KnowsKeys(dest)
  {
    AgreesNamedUpdate(cache.constraints, dest.id, dest.constraints, i, c);
    if dest.constraints[i].def.constraintType == c.def.constraintType {
      KeysUpdate(dest.constraints, i, c);
    }
    dest.constraints := dest.constraints[i := c];
  }

  method WriteConstraints(cache: CatalogCache, src: seq<Constraint>, dest: TableObject)
    requires cache.KnowsNames(dest)
    modifies cache`constraints, cache`pkeys, cache`fkeys, dest`constraints
    ensures cache.KnowsNames(dest) && cache.SparesKeys(dest.id)
    ensures cache.SlotsOf(dest) == MergedSlots(old(cache.SlotsOf(dest)), src)
    ensures old(cache.KnowsKeys(dest)) && KeepsTypes(old(cache.SlotsOf(dest)), src) ==> cache.KnowsKeys(dest)
  {
    ghost var was := cache.SlotsOf(dest);
    assert src[..0] == [];
    for k := 0 to |src|
      invariant cache.KnowsNames(dest) && cache.SparesKeys(dest.id)
      invariant cache.SlotsOf(dest) == MergedSlots(was, src[..k])
      invariant old(cache.KnowsKeys(dest)) && KeepsTypes(was, src[..k]) ==> cache.KnowsKeys(dest)
    {
      assert src[..k + 1][..k] == src[..k];
      ghost var before := cache.Positions();
      WriteConstraint(cache, src[k], dest);
      KeysSparedTwice(old(cache.Positions()), before, cache.Positions(), dest.id);
    }
    assert src[..|src|] == src;
  }

  // ----- tables -----

  method WriteConstraintsAndIndexes(cache: CatalogCache, src: TableDef, dest: TableObject)
    requires cache.KnowsNames(dest) && cache.KnowsIndexes(dest)
    modifies cache`indexes, cache`constraints, cache`pkeys, cache`fkeys, dest`constraints, dest`indexes
    ensures cache.KnowsNames(dest) && cache.KnowsIndexes(dest)
    ensures cache.SparesKeys(dest.id) && SameElsewhere(old(cache.indexes), cache.indexes, dest.id)
    ensures cache.SlotsOf(dest) == MergedSlots(old(cache.SlotsOf(dest)), src.constraints)
    ensures dest.indexes == Merged(old(dest.indexes), src.indexes)
    ensures old(cache.KnowsKeys(dest)) && KeepsTypes(old(cache.SlotsOf(dest)), src.constraints) ==>
              cache.KnowsKeys(dest)
  {
    WriteConstraints(cache, src.constraints, dest);
    WriteIndexes(cache, src.indexes, dest);
  }

  /** The lists of a table are merged, and found by name afterwards; keys are found if none changes its type. */
  method WriteTable(cache: CatalogCache, src: TableDef, dest: TableObject)
    requires cache.KnowsLists(dest) && cache.SlotsOf(dest).unnamed == None
    modifies cache`columns, cache`indexes, cache`constraints, cache`pkeys, cache`fkeys
    modifies dest`columns, dest`constraints, dest`indexes
    ensures cache.KnowsLists(dest) && AllElsewhere(old(cache.Positions()), cache.Positions(), dest.id)
    ensures dest.Def() == MergedDef(Some(old(dest.Def())), src)
    ensures old(cache.Knows(dest)) && KeepsTypes(Slots(old(dest.constraints), None), src.constraints) ==>
              cache.Knows(dest)
  {
    WriteColumns(cache, src.columns, dest);
    WriteConstraintsAndIndexes(cache, src, dest);
  }

  /** The lists of one table, with others written into them. */
  method WriteLists(cache: CatalogCache, id: TableID, was: TableDef, src: TableDef) returns (r: TableDef)
    requires Listed(cache.Positions(), id, was) && At(cache.constraints, Key(id, "")) == None
    modifies cache`columns, cache`indexes, cache`constraints, cache`pkeys, cache`fkeys
    ensures r == MergedDef(Some(was), src) && Listed(cache.Positions(), id, r)
    ensures AllElsewhere(old(cache.Positions()), cache.Positions(), id)
    ensures AllAgree(old(cache.Positions()), id, was) && KeepsTypes(Slots(was.constraints, None), src.constraints) ==>
              AllAgree(cache.Positions(), id, r)
  {
    var table := new TableObject(id);
    table.columns, table.constraints, table.indexes := was.columns, was.constraints, was.indexes;
    assert table.Def() == was;
    WriteTable(cache, src, table);
    return TableDef(table.columns, table.constraints, table.indexes);
  }

  /** The cache finds by name what the table has, and it has noted no constraint without one. */
  ghost predicate TableReady(m: Maps, schema: string, ts: seq<Table>, name: string) {
    Listed(m, TableID(schema, name), DefOf(ts, name)) && At(m.constraints, Key(TableID(schema, name), "")) == None
  }

  /** It knows the keys of the table too, and they stay where they are. */
  ghost predicate TableKnown(m: Maps, schema: string, ts: seq<Table>, t: Table) {
    && AllAgree(m, TableID(schema, t.name), DefOf(ts, t.name))
    && KeepsTypes(Slots(DefOf(ts, t.name).constraints, None), t.def.constraints)
  }

  /** A table with others' lists written into its own. */
  function Written(ts: seq<Table>, t: Table): Table {
    Object(t.name, t.ignore, MergedDef(LiveDef(ts, t.name), t.def))
  }

  lemma Slot(before: seq<Table>, ts: seq<Table>, i: nat, x: Table)
    requires LiveIndex(before, x.name) == None ==> ts == before + [Object(x.name, false, NO_TABLE)] && i == |before|
    requires LiveIndex(before, x.name).Some? ==> ts == before && i == LiveIndex(before, x.name).value
    ensures i < |ts| && ts[i].name == x.name && ts[i].def == DefOf(before, x.name) && ts[i := x] == Upserted(before, x)
  {
  }

  /** One table is written into its place, or into a new place at the end. */
  method WriteInto(cache: CatalogCache, t: Table, dest: SchemaObject)
    requires cache.KnowsSchema(dest) && TableReady(cache.Positions(), dest.name, dest.tables, t.name)
    modifies cache`tables, cache`columns, cache`indexes, cache`constraints, cache`pkeys, cache`fkeys, dest`tables
    ensures cache.KnowsSchema(dest) && SameSchemas(old(cache.tables), cache.tables, dest.name)
    ensures dest.tables == Upserted(old(dest.tables), Written(old(dest.tables), t))
    ensures AllElsewhere(old(cache.Positions()), cache.Positions(), TableID(dest.name, t.name))
    ensures Listed(cache.Positions(), TableID(dest.name, t.name), Written(old(dest.tables), t).def)
    ensures TableKnown(old(cache.Positions()), dest.name, old(dest.tables), t) ==>
              AllAgree(cache.Positions(), TableID(dest.name, t.name), Written(old(dest.tables), t).def)
  {
    ghost var before := dest.tables;
    var id := TableID(dest.name, t.name);
    var i := cache.GetOrCreateTable(dest, t.name);
    Slot(before, dest.tables, i, Written(before, t));
    var lists := WriteLists(cache, id, dest.tables[i].def, t.def);
    var table := Object(t.name, t.ignore, lists);
    PlacedUpdate(cache.tables, dest.name, dest.tables, i, table);
    dest.tables := dest.tables[i := table];
  }

  lemma LiveDefOther<T>(xs: seq<Object<T>>, x: Object<T>, n: string)
    ensures n != x.name ==> LiveDef(Upserted(xs, x), n) == LiveDef(xs, n)
  {
    match LiveIndex(xs, x.name)
    case None => LastIndexSnoc(xs, x, n);
    case Some(i) => LastIndexUpdate(xs, i, x, n);
  }

  lemma RawDefUpserted(ts: seq<Table>, t: Table, n: string)
    ensures RawDef(Upserted(ts, t), n) == if n == t.name then t.def else RawDef(ts, n)
  {
    match LiveIndex(ts, t.name)
    case None => LastIndexSnoc(ts, t, n);
    case Some(i) => LastIndexUpdate(ts, i, t, n);
  }

  lemma ReadyAfter(a: Maps, b: Maps, schema: string, ts: seq<Table>, x: Table, t: Table)
    requires AllElsewhere(a, b, TableID(schema, x.name)) && t.name != x.name
    ensures TableReady(a, schema, ts, t.name) ==> TableReady(b, schema, Upserted(ts, x), t.name)
    ensures TableKnown(a, schema, ts, t) ==> TableKnown(b, schema, Upserted(ts, x), t)
  {
    var id, other := TableID(schema, x.name), TableID(schema, t.name);
    LiveDefOther(ts, x, t.name);
    assert At(b.constraints, Key(other, "")) == At(a.constraints, Key(other, ""));
    if Listed(a, other, DefOf(ts, t.name)) {
      ListedFrame(a, b, id, other, DefOf(ts, t.name));
    }
    if AllAgree(a, other, DefOf(ts, t.name)) {
      AllAgreeFrame(a, b, id, other, DefOf(ts, t.name));
    }
  }

  lemma KnownAfter(a: Maps, b: Maps, schema: string, ts: seq<Table>, x: Table)
    requires AllKnownRaw(a, schema, ts) && AllElsewhere(a, b, TableID(schema, x.name))
    requires AllAgree(b, TableID(schema, x.name), x.def)
    ensures AllKnownRaw(b, schema, Upserted(ts, x))
  {
    forall n ensures AllAgree(b, TableID(schema, n), RawDef(Upserted(ts, x), n)) {
      RawDefUpserted(ts, x, n);
      if n != x.name {
        assert AllAgree(a, TableID(schema, n), RawDef(ts, n));
        AllAgreeFrame(a, b, TableID(schema, x.name), TableID(schema, n), RawDef(ts, n));
      }
    }
  }

  // ----- schemas -----

  /** Nothing is learnt about the tables of other schemas. */
  ghost predicate SchemaSpared(a: Maps, b: Maps, schema: string) {
    forall id: TableID {:trigger Spared(a, b, id)} :: id.schema != schema ==> Spared(a, b, id)
  }

  ghost predicate Spared(a: Maps, b: Maps, id: TableID) {
    forall n {:trigger Key(id, n)} :: && At(a.columns, Key(id, n)) == At(b.columns, Key(id, n))
                                      && At(a.indexes, Key(id, n)) == At(b.indexes, Key(id, n))
                                      && At(a.constraints, Key(id, n)) == At(b.constraints, Key(id, n))
  }

  lemma SchemaSparedNext(a: Maps, b: Maps, c: Maps, id: TableID)
    requires SchemaSpared(a, b, id.schema) && AllElsewhere(b, c, id)
    ensures SchemaSpared(a, c, id.schema)
  {
    forall other: TableID | other.schema != id.schema ensures Spared(a, c, other) {
      assert Spared(a, b, other);
    }
  }

  lemma ReadyInOther(a: Maps, b: Maps, schema: string, other: string, ts: seq<Table>, n: string)
    requires SchemaSpared(a, b, schema) && other != schema && TableReady(a, other, ts, n)
    ensures TableReady(b, other, ts, n)
  {
    assert Spared(a, b, TableID(other, n));
    assert At(a.constraints, Key(TableID(other, n), "")) == At(b.constraints, Key(TableID(other, n), ""));
  }

  /** The tables from some place on can be written. */
  ghost predicate ReadyFrom(m: Maps, schema: string, ts: seq<Table>, src: seq<Table>, k: nat) {
    forall j :: k <= j < |src| ==> TableReady(m, schema, ts, src[j].name)
  }

  ghost predicate KnownFrom(m: Maps, schema: string, ts: seq<Table>, src: seq<Table>, k: nat) {
    AllKnownRaw(m, schema, ts) && forall j :: k <= j < |src| ==> TableKnown(m, schema, ts, src[j])
  }

  lemma TableDone(a: Maps, b: Maps, schema: string, ts: seq<Table>, src: seq<Table>, k: nat)
    requires k < |src| && UniqueNames(src) && ReadyFrom(a, schema, ts, src, k)
    requires AllElsewhere(a, b, TableID(schema, src[k].name))
    ensures ReadyFrom(b, schema, Upserted(ts, Written(ts, src[k])), src, k + 1)
    ensures KnownFrom(a, schema, ts, src, k) && AllAgree(b, TableID(schema, src[k].name), Written(ts, src[k]).def) ==>
              KnownFrom(b, schema, Upserted(ts, Written(ts, src[k])), src, k + 1)
  {
    var x := Written(ts, src[k]);
    forall j | k < j < |src|
      ensures TableReady(b, schema, Upserted(ts, x), src[j].name)
      ensures TableKnown(a, schema, ts, src[j]) ==> TableKnown(b, schema, Upserted(ts, x), src[j])
    {
      assert TableReady(a, schema, ts, src[j].name);
      ReadyAfter(a, b, schema, ts, x, src[j]);
    }
    if AllKnownRaw(a, schema, ts) && AllAgree(b, TableID(schema, x.name), x.def) {
      KnownAfter(a, b, schema, ts, x);
    }
  }

  /** All tables of a schema. If the cache knows everything before, it does so after. */
  method WriteTables(cache: CatalogCache, src: seq<Table>, dest: SchemaObject)
    requires cache.KnowsSchema(dest) && UniqueNames(src)
    requires ReadyFrom(cache.Positions(), dest.name, dest.tables, src, 0)
    modifies cache`tables, cache`columns, cache`indexes, cache`constraints, cache`pkeys, cache`fkeys, dest`tables
    ensures cache.KnowsSchema(dest) && SameSchemas(old(cache.tables), cache.tables, dest.name)
    ensures SchemaSpared(old(cache.Positions()), cache.Positions(), dest.name)
    ensures dest.tables == MergedTables(old(dest.tables), src)
    ensures KnownFrom(old(cache.Positions()), dest.name, old(dest.tables), src, 0) ==>
              AllKnownRaw(cache.Positions(), dest.name, dest.tables)
  {
    assert src[..0] == [];
    ghost var knew := KnownFrom(cache.Positions(), dest.name, dest.tables, src, 0);
    for k := 0 to |src|
      invariant cache.KnowsSchema(dest) && SameSchemas(old(cache.tables), cache.tables, dest.name)
      invariant SchemaSpared(old(cache.Positions()), cache.Positions(), dest.name)
      invariant ReadyFrom(cache.Positions(), dest.name, dest.tables, src, k)
      invariant knew ==> KnownFrom(cache.Positions(), dest.name, dest.tables, src, k)
      invariant dest.tables == MergedTables(old(dest.tables), src[..k])
    {
      assert src[..k + 1][..k] == src[..k];
      ghost var places, positions, ts := cache.tables, cache.Positions(), dest.tables;
      WriteInto(cache, src[k], dest);
      TableDone(positions, cache.Positions(), dest.name, ts, src, k);
      SchemaSparedNext(old(cache.Positions()), positions, cache.Positions(), TableID(dest.name, src[k].name));
      SameSchemasTwice(old(cache.tables), places, cache.tables, dest.name);
    }
    assert src[..|src|] == src;
  }

  /** The tables of a schema, none if there is no such schema. */
  function TablesOf(cat: seq<Schema>, name: string): seq<Table> {
    LiveDef(cat, name).UnwrapOr([])
  }

  ghost predicate SchemaReady(places: map<TableID, nat>, m: Maps, cat: seq<Schema>, s: Schema) {
    Placed(places, s.name, TablesOf(cat, s.name)) && ReadyFrom(m, s.name, TablesOf(cat, s.name), s.def, 0)
  }

  lemma OtherSchemaReady(p: map<TableID, nat>, q: map<TableID, nat>, a: Maps, b: Maps, cat: seq<Schema>, x: Schema,
                         s: Schema)
    requires SchemaReady(p, a, cat, s) && SchemaSpared(a, b, x.name) && SameSchemas(p, q, x.name) && s.name != x.name
    ensures SchemaReady(q, b, Upserted(cat, x), s)
  {
    LiveDefOther(cat, x, s.name);
    PlacedFrame(p, q, x.name, s.name, TablesOf(cat, s.name));
    forall j | 0 <= j < |s.def| ensures TableReady(b, s.name, TablesOf(cat, s.name), s.def[j].name) {
      ReadyInOther(a, b, x.name, s.name, TablesOf(cat, s.name), s.def[j].name);
    }
  }

  lemma SchemaSlot(before: seq<Schema>, after: seq<Schema>, i: nat, x: Schema)
    requires LiveIndex(before, x.name) == None ==> after == before + [Object(x.name, false, [])] && i == |before|
    requires LiveIndex(before, x.name).Some? ==> after == before && i == LiveIndex(before, x.name).value
    ensures i < |after| && after[i].name == x.name && after[i].def == TablesOf(before, x.name)
    ensures after[i := x] == Upserted(before, x)
  {
  }

  /** A schema with others' tables written into its own. */
  function WrittenSchema(cat: seq<Schema>, s: Schema): Schema {
    Object(s.name, s.ignore, MergedSchema(LiveDef(cat, s.name), s.def))
  }

  lemma SchemasUpdate(m: map<string, nat>, cat: seq<Schema>, i: nat, x: Schema)
    requires SchemasKnown(m, cat) && i < |cat| && cat[i].name == x.name
    ensures SchemasKnown(m, cat[i := x])
  {
    forall n ensures At(m, n) == LastIndex(cat[i := x], n) {
      LastIndexUpdate(cat, i, x, n);
    }
  }

  /** One schema is written into its place, or into a new place at the end. */
  method WriteSchema(cache: CatalogCache, s: Schema, dest: CatalogObject)
    requires SchemasKnown(cache.schemas, dest.schemas) && UniqueNames(s.def)
    requires SchemaReady(cache.tables, cache.Positions(), dest.schemas, s)
    modifies cache, dest
    ensures SchemasKnown(cache.schemas, dest.schemas)
    ensures dest.schemas == Upserted(old(dest.schemas), WrittenSchema(old(dest.schemas), s))
    ensures SchemaSpared(old(cache.Positions()), cache.Positions(), s.name)
    ensures SameSchemas(old(cache.tables), cache.tables, s.name)
  {
    ghost var before := dest.schemas;
    var i := cache.GetOrCreateSchema(dest, s.name);
    SchemaSlot(before, dest.schemas, i, WrittenSchema(before, s));
    var schema := new SchemaObject(s.name);
    schema.tables := dest.schemas[i].def;
    WriteTables(cache, s.def, schema);
    var x := Object(s.name, s.ignore, schema.tables);
    SchemasUpdate(cache.schemas, dest.schemas, i, x);
    dest.schemas := dest.schemas[i := x];
  }

  // ----- catalogs -----

  ghost predicate SchemasReady(places: map<TableID, nat>, m: Maps, cat: seq<Schema>, src: seq<Schema>, k: nat) {
    forall j :: k <= j < |src| ==> SchemaReady(places, m, cat, src[j])
  }

  lemma SchemaDone(p: map<TableID, nat>, q: map<TableID, nat>, a: Maps, b: Maps, cat: seq<Schema>, src: seq<Schema>,
                   k: nat)
    requires k < |src| && UniqueNames(src) && SchemasReady(p, a, cat, src, k)
    requires SchemaSpared(a, b, src[k].name) && SameSchemas(p, q, src[k].name)
    ensures SchemasReady(q, b, Upserted(cat, WrittenSchema(cat, src[k])), src, k + 1)
  {
    forall j | k < j < |src| ensures SchemaReady(q, b, Upserted(cat, WrittenSchema(cat, src[k])), src[j]) {
      OtherSchemaReady(p, q, a, b, cat, WrittenSchema(cat, src[k]), src[j]);
    }
  }

  /** Where the schema, or a table in it, would be made anew in place of one that is ignored, that one has nothing. */
  ghost predicate NothingHidden(cat: seq<Schema>, s: Schema) {
    && (LiveDef(cat, s.name) == None ==> RawTables(cat, s.name) == [])
    && forall j {:trigger s.def[j]} :: 0 <= j < |s.def| && Remakes(TablesOf(cat, s.name), s.def[j].name) ==>
         Blank(RawDef(TablesOf(cat, s.name), s.def[j].name))
  }

  lemma RemadeIsReady(m: Maps, schema: string, ts: seq<Table>, n: string)
    requires AllKnownRaw(m, schema, ts) && At(m.constraints, Key(TableID(schema, n), "")) == None
    requires Remakes(ts, n) ==> Blank(RawDef(ts, n))
    ensures TableReady(m, schema, ts, n)
  {
    assert AllAgree(m, TableID(schema, n), RawDef(ts, n));
    RemadeIsUnknownExactly(m, TableID(schema, n), RawDef(ts, n));
  }

  lemma NewCacheIsReady(cat: seq<Schema>, s: Schema)
    requires TablesPlaced(CatalogPlaced(map[], cat), cat) && ListsKnown(CatalogMaps(NO_MAPS, cat), cat)
    requires NothingHidden(cat, s)
    ensures SchemaReady(CatalogPlaced(map[], cat), CatalogMaps(NO_MAPS, cat), cat, s)
  {
    assert RawTables(cat, s.name) == TablesOf(cat, s.name);
    forall j | 0 <= j < |s.def|
      ensures TableReady(CatalogMaps(NO_MAPS, cat), s.name, TablesOf(cat, s.name), s.def[j].name)
    {
      UnnamedInCatalog(cat, TableID(s.name, s.def[j].name));
      RemadeIsReady(CatalogMaps(NO_MAPS, cat), s.name, TablesOf(cat, s.name), s.def[j].name);
    }
  }

  /** Schemas have different names, and so have the tables of each. */
  ghost predicate Addressed(cat: seq<Schema>) {
    UniqueNames(cat) && forall k :: 0 <= k < |cat| ==> UniqueNames(cat[k].def)
  }

  /** All of a catalog is written into another, through a new cache of the other. */
  method WriteCatalog(src: seq<Schema>, dest: CatalogObject)
    requires Addressed(src) && Addressed(dest.schemas)
    requires forall k :: 0 <= k < |src| ==> NothingHidden(dest.schemas, src[k])
    modifies dest
    ensures dest.schemas == MergedSchemas(old(dest.schemas), src)
  {
    var cache := new CatalogCache(dest.schemas);
    forall k | 0 <= k < |src| ensures SchemaReady(cache.tables, cache.Positions(), dest.schemas, src[k]) {
      NewCacheIsReady(dest.schemas, src[k]);
    }
    assert src[..0] == [];
    for k := 0 to |src|
      invariant fresh(cache) && SchemasKnown(cache.schemas, dest.schemas)
      invariant SchemasReady(cache.tables, cache.Positions(), dest.schemas, src, k)
      invariant dest.schemas == MergedSchemas(old(dest.schemas), src[..k])
    {
      assert src[..k + 1][..k] == src[..k];
      ghost var places, positions, cat := cache.tables, cache.Positions(), dest.schemas;
      WriteSchema(cache, src[k], dest);
      SchemaDone(places, cache.tables, positions, cache.Positions(), cat, src, k);
    }
    assert src[..|src|] == src;
  }

  /** The cache of a catalog with an ignored table knows that table's columns, so that WriteCatalog, which makes another
      table of the name, panics at its first column if it is one of those. */
  lemma IgnoredTablePanics(cat: seq<Schema>, i: nat, j: nat, k: nat)
    requires Addressed(cat) && i < |cat| && j < |cat[i].def| && k < |cat[i].def[j].def.columns|
    ensures var t := cat[i].def[j];
      && IndexesOutside<ColumnDef>(CatalogMaps(NO_MAPS, cat).columns, TableID(cat[i].name, t.name), [],
                                   t.def.columns[k].name)
      && (t.ignore && !cat[i].ignore ==> !NothingHidden(cat, cat[i]))
  {
    var s, t := cat[i], cat[i].def[j];
    ListsAreKnown(cat);
    FoundAt(cat, i);
    FoundAt(s.def, j);
    assert RawTables(cat, s.name) == s.def && RawDef(s.def, t.name) == t.def;
    assert AllAgree(CatalogMaps(NO_MAPS, cat), TableID(s.name, t.name), RawDef(s.def, t.name));
    RemadePanics(CatalogMaps(NO_MAPS, cat), TableID(s.name, t.name), t.def, k);
    if t.ignore && !s.ignore {
      assert s.def[j] == t && Remakes(TablesOf(cat, s.name), t.name) && !Blank(RawDef(s.def, t.name));
    }
  }

  lemma SettledHidesNothing(cat: seq<Schema>, k: nat)
    requires Proper(cat) && Settled(cat) && k < |cat|
    ensures NothingHidden(cat, cat[k])
  {
    FoundAt(cat, k);
    assert TablesOf(cat, cat[k].name) == cat[k].def;
    forall j | 0 <= j < |cat[k].def| ensures !Remakes(cat[k].def, cat[k].def[j].name) {
      FoundAt(cat[k].def, j);
    }
  }

  /** A catalog written into an empty one, as the test of WriteCatalog does, and once more if asked to: source and
      target are equal. */
  method CopyCatalog(src: seq<Schema>, again: bool) returns (dest: CatalogObject)
    requires Proper(src) && (again ==> Settled(src))
    ensures fresh(dest) && dest.schemas == src
  {
    dest := new CatalogObject([]);
    CatalogIntoEmpty(src);
    WriteCatalog(src, dest);
    if again {
      forall k | 0 <= k < |src| ensures NothingHidden(src, src[k]) {
        SettledHidesNothing(src, k);
      }
      CatalogIntoItselfExactly(src);
      WriteCatalog(src, dest);
    }
  }
}
