/** The catalog cache: it finds the tables of a schema, and the columns, constraints and
    indexes of a table, without scanning their lists. */
module CatalogCaches {
  import opened Common
  import opened Catalogs
  import opened CachePositions
  import opened CacheIndexing
  import opened CatalogMerging

  /** A table whose lists are changed in place. */
  class TableObject {
    const id: TableID
    var ignore: bool
    var columns: seq<Column>
    var constraints: seq<Constraint>
    var indexes: seq<Index>

    constructor (id: TableID)
      ensures this.id == id && !ignore && columns == [] && constraints == [] && indexes == []
    {
      this.id, ignore, columns, constraints, indexes := id, false, [], [], [];
    }

    ghost function Def(): TableDef
      reads this`columns, this`constraints, this`indexes
    {
      TableDef(columns, constraints, indexes)
    }
  }

  /** A schema whose list of tables is changed in place. */
  class SchemaObject {
    const name: string
    var tables: seq<Table>

    constructor (name: string)
      ensures this.name == name && tables == []
    {
      this.name, tables := name, [];
    }
  }

  /** A catalog whose list of schemas is changed in place. */
  class CatalogObject {
    var schemas: seq<Schema>

    constructor (schemas: seq<Schema>)
      ensures this.schemas == schemas
    {
      this.schemas := schemas;
    }
  }

  function BlankColumn(columnType: string): ColumnDef {
    ColumnDef(columnType, "", false, false, "", "")
  }

  class CatalogCache {
    var schemas: map<string, nat>
    var tables: map<TableID, nat>
    var columns: map<Key, nat>
    var constraints: map<Key, nat>
    var indexes: map<Key, nat>
    var pkeys: map<TableID, nat>
    var fkeys: map<TableID, seq<nat>>

    ghost predicate KnowsColumns(t: TableObject)
      reads this`columns, t`columns
    {
      Agrees(columns, t.id, t.columns)
    }

    ghost predicate KnowsIndexes(t: TableObject)
      reads this`indexes, t`indexes
    {
      Agrees(indexes, t.id, t.indexes)
    }

    ghost predicate KnowsNames(t: TableObject)
      reads this`constraints, t`constraints
    {
      AgreesNamed(constraints, t.id, t.constraints)
    }

    ghost predicate KnowsKeys(t: TableObject)
      reads this`pkeys, this`fkeys, t`constraints
    {
      KeysAgree(pkeys, fkeys, t.id, t.constraints)
    }

    ghost predicate KnowsConstraints(t: TableObject)
      reads this`constraints, this`pkeys, this`fkeys, t`constraints
    {
      KnowsNames(t) && KnowsKeys(t)
    }

    ghost function Positions(): Maps
      reads this`columns, this`indexes, this`constraints, this`pkeys, this`fkeys
    {
      Maps(columns, indexes, constraints, pkeys, fkeys)
    }

    /** The cache has the positions of everything in the table. */
    ghost predicate Knows(t: TableObject)
      reads this`columns, this`indexes, this`constraints, this`pkeys, this`fkeys, t`columns, t`indexes, t`constraints
    {
      AllAgree(Positions(), t.id, t.Def())
    }

    /** The cache has the positions of everything in the table by its name. */
    ghost predicate KnowsLists(t: TableObject)
      reads this`columns, this`indexes, this`constraints, this`pkeys, this`fkeys, t`columns, t`indexes, t`constraints
    {
      Listed(Positions(), t.id, t.Def())
    }

    /** The constraints of the table, and the place that is noted for those without a name. */
    ghost function SlotsOf(t: TableObject): Slots
      reads this`constraints, t`constraints
    {
      Slots(t.constraints, At(constraints, Key(t.id, "")))
    }

    /** The cache has the positions of the tables of the schema. */
    ghost predicate KnowsSchema(s: SchemaObject)
      reads this`tables, s`tables
    {
      Placed(tables, s.name, s.tables)
    }

    twostate predicate SparesKeys(id: TableID)
      reads this`columns, this`indexes, this`constraints, this`pkeys, this`fkeys
    {
      KeysSpared(old(Positions()), Positions(), id)
    }

    // ----- a new cache -----

    /** The positions of everything in a catalog; they are right if its schemas, and the tables of each, have different
        names. */
    constructor (catalog: seq<Schema>)
      ensures schemas == SchemasPlaced(map[], catalog) && tables == CatalogPlaced(map[], catalog)
      ensures Positions() == CatalogMaps(NO_MAPS, catalog)
      ensures SchemasKnown(schemas, catalog)
      ensures UniqueNames(catalog) ==> TablesPlaced(tables, catalog)
      ensures UniqueNames(catalog) && (forall k :: 0 <= k < |catalog| ==> UniqueNames(catalog[k].def)) ==>
                ListsKnown(Positions(), catalog)
    {
      schemas, tables := map[], map[];
      columns, constraints, indexes, pkeys, fkeys := map[], map[], map[], map[], map[];
      new;
      assert catalog[..0] == [];
      for k := 0 to |catalog|
        invariant schemas == SchemasPlaced(map[], catalog[..k]) && tables == CatalogPlaced(map[], catalog[..k])
        invariant Positions() == CatalogMaps(NO_MAPS, catalog[..k])
      {
        assert catalog[..k + 1][..k] == catalog[..k];
        schemas := schemas[catalog[k].name := k];
        IndexSchema(catalog[k].name, catalog[k].def);
      }
      assert catalog[..|catalog|] == catalog;
      forall n ensures At(schemas, n) == LastIndex(catalog, n) {
        SchemasAreKnown(catalog, n);
      }
      if UniqueNames(catalog) {
        TablesArePlaced(catalog);
        if forall k :: 0 <= k < |catalog| ==> UniqueNames(catalog[k].def) {
          ListsAreKnown(catalog);
        }
      }
    }

    method IndexSchema(schema: string, ts: seq<Table>)
      modifies this`tables, this`columns, this`indexes, this`constraints, this`pkeys, this`fkeys
      ensures tables == PlacedIn(old(tables), schema, ts)
      ensures Positions() == TablesMaps(old(Positions()), schema, ts)
    {
      assert ts[..0] == [];
      for k := 0 to |ts|
        invariant tables == PlacedIn(old(tables), schema, ts[..k])
        invariant Positions() == TablesMaps(old(Positions()), schema, ts[..k])
      {
        assert ts[..k + 1][..k] == ts[..k];
        var id := TableID(schema, ts[k].name);
        tables := tables[id := k];
        IndexTable(id, ts[k].def);
      }
      assert ts[..|ts|] == ts;
    }

    method IndexTable(id: TableID, t: TableDef)
      modifies this`columns, this`indexes, this`constraints, this`pkeys, this`fkeys
      ensures Positions() == TableMaps(old(Positions()), id, t)
    {
      for k := 0 to |t.columns|
        invariant columns == Indexed(old(columns), id, t.columns[..k]) && indexes == old(indexes)
        invariant constraints == old(constraints) && pkeys == old(pkeys) && fkeys == old(fkeys)
      {
        assert t.columns[..k + 1][..k] == t.columns[..k];
        columns := columns[Key(id, t.columns[k].name) := k];
      }
      assert t.columns[..|t.columns|] == t.columns;
      IndexConstraints(id, t.constraints);
      assert t.indexes[..0] == [];
      for k := 0 to |t.indexes|
        invariant indexes == Indexed(old(indexes), id, t.indexes[..k])
        invariant columns == Indexed(old(columns), id, t.columns)
        invariant constraints == IndexedNamed(old(constraints), id, t.constraints)
        invariant pkeys == PkeysIndexed(old(pkeys), id, t.constraints)
        invariant fkeys == FkeysIndexed(old(fkeys), id, t.constraints)
      {
        assert t.indexes[..k + 1][..k] == t.indexes[..k];
        indexes := indexes[Key(id, t.indexes[k].name) := k];
      }
      assert t.indexes[..|t.indexes|] == t.indexes;
    }

    method IndexConstraints(id: TableID, cs: seq<Constraint>)
      modifies this`constraints, this`pkeys, this`fkeys
      ensures constraints == IndexedNamed(old(constraints), id, cs)
      ensures pkeys == PkeysIndexed(old(pkeys), id, cs) && fkeys == FkeysIndexed(old(fkeys), id, cs)
    {
      for k := 0 to |cs|
        invariant constraints == IndexedNamed(old(constraints), id, cs[..k])
        invariant pkeys == PkeysIndexed(old(pkeys), id, cs[..k]) && fkeys == FkeysIndexed(old(fkeys), id, cs[..k])
      {
        assert cs[..k + 1][..k] == cs[..k];
        NoteKey(id, cs[k], k);
        if cs[k].name == "" {
          continue;
        }
        constraints := constraints[Key(id, cs[k].name) := k];
      }
      assert cs[..|cs|] == cs;
    }

    method NoteKey(id: TableID, c: Constraint, i: nat)
      modifies this`pkeys, this`fkeys
      ensures pkeys == PkeysWith(old(pkeys), id, c, i) && fkeys == FkeysWith(old(fkeys), id, c, i)
    {
      match c.def.constraintType {
        case PrimaryKey => pkeys := pkeys[id := i];
        case ForeignKey => fkeys := fkeys[id := (if id in fkeys then fkeys[id] else []) + [i]];
        case Unique =>
        case Check =>
      }
    }

    // ----- schemas -----

    method GetSchema(catalog: CatalogObject?, schemaName: string) returns (r: Option<Schema>)
      requires catalog != null ==> SchemasKnown(schemas, catalog.schemas)
      ensures r == if catalog == null then None else Find(catalog.schemas, schemaName)
    {
      if catalog == null {
        return None;
      }
      FindByIndex(catalog.schemas, schemaName);
      assert At(schemas, schemaName) == LastIndex(catalog.schemas, schemaName);
      if schemaName in schemas && !catalog.schemas[schemas[schemaName]].ignore {
        return Some(catalog.schemas[schemas[schemaName]]);
      }
      return None;
    }

    method GetOrCreateSchema(catalog: CatalogObject, schemaName: string) returns (i: nat)
      requires SchemasKnown(schemas, catalog.schemas)
      modifies this`schemas, catalog`schemas
      ensures SchemasKnown(schemas, catalog.schemas)
      ensures LiveIndex(old(catalog.schemas), schemaName) == None ==>
                catalog.schemas == old(catalog.schemas) + [Object(schemaName, false, [])] && i == |old(catalog.schemas)|
      ensures LiveIndex(old(catalog.schemas), schemaName).Some? ==>
                catalog.schemas == old(catalog.schemas) && i == LiveIndex(old(catalog.schemas), schemaName).value
    {
      assert At(schemas, schemaName) == LastIndex(catalog.schemas, schemaName);
      if schemaName in schemas && !catalog.schemas[schemas[schemaName]].ignore {
        return schemas[schemaName];
      }
      SchemasSnoc(schemas, catalog.schemas, Object(schemaName, false, []));
      i := |catalog.schemas|;
      catalog.schemas := catalog.schemas + [Object(schemaName, false, [])];
      schemas := schemas[schemaName := i];
    }

    // ----- tables -----

    method GetTable(schema: SchemaObject?, tableName: string) returns (r: Option<Table>)
      requires schema != null ==> KnowsSchema(schema)
      ensures r == if schema == null then None else Find(schema.tables, tableName)
    {
      if schema == null {
        return None;
      }
      FindByIndex(schema.tables, tableName);
      var id := TableID(schema.name, tableName);
      if id in tables && !schema.tables[tables[id]].ignore {
        return Some(schema.tables[tables[id]]);
      }
      return None;
    }

    method GetOrCreateTable(schema: SchemaObject, tableName: string) returns (i: nat)
      requires KnowsSchema(schema)
      modifies this`tables, schema`tables
      ensures KnowsSchema(schema) && SameSchemas(old(tables), tables, schema.name)
      ensures LiveIndex(old(schema.tables), tableName) == None ==>
                schema.tables == old(schema.tables) + [Object(tableName, false, TableDef([], [], []))]
                    && i == |old(schema.tables)|
      ensures LiveIndex(old(schema.tables), tableName).Some? ==>
                schema.tables == old(schema.tables) && i == LiveIndex(old(schema.tables), tableName).value
      ensures AllKnown(Positions(), schema.name, old(schema.tables)) ==>
          AllKnown(Positions(), schema.name, schema.tables)
    {
      var id := TableID(schema.name, tableName);
      if id in tables && !schema.tables[tables[id]].ignore {
        return tables[id];
      }
      var table := Object(tableName, false, TableDef([], [], []));
      PlacedSnoc(tables, schema.name, schema.tables, table);
      if AllKnown(Positions(), schema.name, schema.tables) {
        MadeIsKnown(Positions(), schema.name, schema.tables, tableName);
      }
      i := |schema.tables|;
      schema.tables := schema.tables + [table];
      tables := tables[id := i];
    }

    method AddOrUpdateTable(schema: SchemaObject, table: Table)
      requires KnowsSchema(schema)
      modifies this`tables, schema`tables
      ensures KnowsSchema(schema) && SameSchemas(old(tables), tables, schema.name)
      ensures schema.tables == Upserted(old(schema.tables), table)
    {
      var id := TableID(schema.name, table.name);
      if id in tables && !schema.tables[tables[id]].ignore {
        PlacedUpdate(tables, schema.name, schema.tables, tables[id], table);
        schema.tables := schema.tables[tables[id] := table];
        return;
      }
      PlacedSnoc(tables, schema.name, schema.tables, table);
      tables := tables[id := |schema.tables|];
      schema.tables := schema.tables + [table];
    }

    // ----- columns -----

    method GetColumn(table: TableObject?, columnName: string) returns (r: Option<Column>)
      requires table != null ==> KnowsColumns(table)
      ensures r == if table == null then None else Find(table.columns, columnName)
    {
      if table == null {
        return None;
      }
      FindByIndex(table.columns, columnName);
      var k := Key(table.id, columnName);
      if k in columns && !table.columns[columns[k]].ignore {
        return Some(table.columns[columns[k]]);
      }
      return None;
    }

    /** Where the column is: at its place, or at the end of the list if it had none. */
    method GetOrCreateColumn(table: TableObject, columnName: string, columnType: string) returns (i: nat)
      requires KnowsColumns(table)
      modifies this`columns, table`columns
      ensures KnowsColumns(table) && SameElsewhere(old(columns), columns, table.id)
      ensures LiveIndex(old(table.columns), columnName) == None ==>
                table.columns == old(table.columns) + [Object(columnName, false, BlankColumn(columnType))]
                    && i == |old(table.columns)|
      ensures LiveIndex(old(table.columns), columnName) == None ==>
                var d := table.columns[i].def;
                && d.columnType == columnType && d.default == "" && d.identity == "" && d.collation == ""
                && !d.isNotNull && !d.isPrimaryKey
      ensures LiveIndex(old(table.columns), columnName).Some? ==>
                table.columns == old(table.columns) && i == LiveIndex(old(table.columns), columnName).value
    {
      var k := Key(table.id, columnName);
      if k in columns && !table.columns[columns[k]].ignore {
        return columns[k];
      }
      var column := Object(columnName, false, BlankColumn(columnType));
      AgreesSnoc(columns, table.id, table.columns, column);
      i := |table.columns|;
      table.columns := table.columns + [column];
      columns := columns[k := i];
    }

    method AddOrUpdateColumn(table: TableObject, column: Column)
      requires KnowsColumns(table)
      modifies this`columns, table`columns
      ensures KnowsColumns(table) && SameElsewhere(old(columns), columns, table.id)
      ensures table.columns == Upserted(old(table.columns), column)
    {
      var k := Key(table.id, column.name);
      if k in columns && !table.columns[columns[k]].ignore {
        AgreesUpdate(columns, table.id, table.columns, columns[k], column);
        table.columns := table.columns[columns[k] := column];
        return;
      }
      AgreesSnoc(columns, table.id, table.columns, column);
      columns := columns[k := |table.columns|];
      table.columns := table.columns + [column];
    }

    // ----- indexes -----

    method GetIndex(table: TableObject?, indexName: string) returns (r: Option<Index>)
      requires table != null ==> KnowsIndexes(table)
      ensures r == if table == null then None else Find(table.indexes, indexName)
    {
      if table == null {
        return None;
      }
      FindByIndex(table.indexes, indexName);
      var k := Key(table.id, indexName);
      if k in indexes && !table.indexes[indexes[k]].ignore {
        return Some(table.indexes[indexes[k]]);
      }
      return None;
    }

    method GetOrCreateIndex(table: TableObject, indexName: string, columnNames: seq<string>) returns (i: nat)
      requires KnowsIndexes(table)
      modifies this`indexes, table`indexes
      ensures KnowsIndexes(table) && SameElsewhere(old(indexes), indexes, table.id)
      ensures LiveIndex(old(table.indexes), indexName) == None ==>
                table.indexes == old(table.indexes) + [Object(indexName, false, IndexDef(false, columnNames))]
                    && i == |old(table.indexes)|
      ensures LiveIndex(old(table.indexes), indexName).Some? ==>
                table.indexes == old(table.indexes) && i == LiveIndex(old(table.indexes), indexName).value
    {
      var k := Key(table.id, indexName);
      if k in indexes && !table.indexes[indexes[k]].ignore {
        return indexes[k];
      }
      var index := Object(indexName, false, IndexDef(false, columnNames));
      AgreesSnoc(indexes, table.id, table.indexes, index);
      i := |table.indexes|;
      table.indexes := table.indexes + [index];
      indexes := indexes[k := i];
    }

    method AddOrUpdateIndex(table: TableObject, index: Index)
      requires KnowsIndexes(table)
      modifies this`indexes, table`indexes
      ensures KnowsIndexes(table) && SameElsewhere(old(indexes), indexes, table.id)
      ensures table.indexes == Upserted(old(table.indexes), index)
    {
      var k := Key(table.id, index.name);
      if k in indexes && !table.indexes[indexes[k]].ignore {
        AgreesUpdate(indexes, table.id, table.indexes, indexes[k], index);
        table.indexes := table.indexes[indexes[k] := index];
        return;
      }
      AgreesSnoc(indexes, table.id, table.indexes, index);
      indexes := indexes[k := |table.indexes|];
      table.indexes := table.indexes + [index];
    }

    // ----- constraints -----

    /** A constraint without a name is found only if GetOrCreateConstraint has noted one. */
    method GetConstraint(table: TableObject?, constraintName: string) returns (r: Option<Constraint>)
      requires table != null ==> KnowsNames(table)
      ensures table == null ==> r == None
      ensures table != null && constraintName != "" ==> r == Find(table.constraints, constraintName)
      ensures table != null ==>
                r == match Noted(constraints, table.id, table.constraints, constraintName)
                     case None => None
                     case Some(i) => Some(table.constraints[i])
    {
      if table == null {
        return None;
      }
      FindByIndex(table.constraints, constraintName);
      NotedIsLive(constraints, table.id, table.constraints, constraintName);
      var k := Key(table.id, constraintName);
      if k in constraints && !table.constraints[constraints[k]].ignore {
        return Some(table.constraints[constraints[k]]);
      }
      return None;
    }

    /** A constraint at the end of the list, noted in every map that it belongs in. */
    method Append(table: TableObject, c: Constraint, noteUnnamed: bool)
      requires KnowsNames(table)
      modifies this`constraints, this`pkeys, this`fkeys, table`constraints
      ensures KnowsNames(table) && (old(KnowsKeys(table)) ==> KnowsKeys(table)) && SparesKeys(table.id)
      ensures SlotsOf(table) == Slots(old(table.constraints) + [c], if c.name == "" && noteUnnamed
                                      then Some(|old(table.constraints)|) else old(SlotsOf(table)).unnamed)
    {
      AgreesNamedSnoc(constraints, table.id, table.constraints, c);
      if KnowsKeys(table) {
        KeysAgreeSnoc(pkeys, fkeys, table.id, table.constraints, c);
      }
      KeysElsewhere(pkeys, fkeys, table.id, c, |table.constraints|);
      NoteKey(table.id, c, |table.constraints|);
      if c.name != "" || noteUnnamed {
        constraints := constraints[Key(table.id, c.name) := |table.constraints|];
      }
      table.constraints := table.constraints + [c];
    }

    /** The place that is noted for the name, or a new one at the end. Constraints without a name share a place. */
    method GetOrCreateConstraint(table: TableObject, constraintName: string, constraintType: ConstraintType,
                                 columnNames: seq<string>) returns (i: nat)
      requires KnowsNames(table)
      modifies this`constraints, this`pkeys, this`fkeys, table`constraints
      ensures KnowsNames(table) && (old(KnowsKeys(table)) ==> KnowsKeys(table)) && SparesKeys(table.id)
      ensures var there := old(Noted(constraints, table.id, table.constraints, constraintName));
              && (constraintName != "" ==> there == LiveIndex(old(table.constraints), constraintName))
              && (there.Some? ==> SlotsOf(table) == old(SlotsOf(table)) && i == there.value)
              && (there == None ==>
                    table.constraints == old(table.constraints)
                      + [Object(constraintName, false, ConstraintDef(constraintType, columnNames, TableID("", ""), []))]
                    && i == |old(table.constraints)|
                    && SlotsOf(table).unnamed == if constraintName == "" then Some(i) else old(SlotsOf(table)).unnamed)
    {
      NotedIsLive(constraints, table.id, table.constraints, constraintName);
      var k := Key(table.id, constraintName);
      if k in constraints && !table.constraints[constraints[k]].ignore {
        return constraints[k];
      }
      i := |table.constraints|;
      Append(table, Object(constraintName, false, ConstraintDef(constraintType, columnNames, TableID("", ""), [])),
             true);
    }

    /** The list is right in any case; the positions of keys stay right exactly if they do not change. */
    method AddOrUpdateConstraint(table: TableObject, c: Constraint)
      requires KnowsNames(table)
      modifies this`constraints, this`pkeys, this`fkeys, table`constraints
      ensures KnowsNames(table) && SparesKeys(table.id)
      ensures var there := old(Noted(constraints, table.id, table.constraints, c.name));
              && (c.name != "" ==> there == LiveIndex(old(table.constraints), c.name))
              && (there == None ==>
                    table.constraints == old(table.constraints) + [c] && (old(KnowsKeys(table)) ==> KnowsKeys(table)))
              && (there.Some? ==>
                    table.constraints == old(table.constraints)[there.value := c]
                    && (old(KnowsKeys(table)) ==>
                          (KnowsKeys(table) <==> KeepsKeys(old(table.constraints), there.value, c))))
    {
      NotedIsLive(constraints, table.id, table.constraints, c.name);
      var k := Key(table.id, c.name);
      if k in constraints && !table.constraints[constraints[k]].ignore {
        AgreesNamedUpdate(constraints, table.id, table.constraints, constraints[k], c);
        table.constraints := table.constraints[constraints[k] := c];
        return;
      }
      Append(table, c, false);
    }

    /** The last primary key, unless it is ignored. */
    method GetPrimaryKey(table: TableObject?) returns (r: Option<Constraint>)
      requires table != null ==> KnowsKeys(table)
      ensures table == null ==> r == None
      ensures table != null ==>
                r == match PkeyIndex(table.constraints)
                     case None => None
                     case Some(i) => if table.constraints[i].ignore then None else Some(table.constraints[i])
      ensures table != null ==>
                forall c :: c in table.constraints ==> (r == Some(c) <==> IsLastPkey(table.constraints, c))
      ensures r.Some? ==> table != null && r.value in table.constraints
    {
      if table == null {
        return None;
      }
      OnlyLastPkey(table.constraints);
      if table.id in pkeys && !table.constraints[pkeys[table.id]].ignore {
        return Some(table.constraints[pkeys[table.id]]);
      }
      return None;
    }

    method GetForeignKeys(table: TableObject?) returns (r: seq<Constraint>)
      requires table != null ==> KnowsKeys(table)
      ensures table != null ==> HasLiveFkeys(table.constraints, r)
      ensures r == if table == null then [] else LiveFkeys(table.constraints)
    {
      if table == null {
        return [];
      }
      LiveFkeysExactly(table.constraints);
      r := [];
      if table.id !in fkeys {
        SelectedAreLive(table.constraints);
        return;
      }
      var nums := fkeys[table.id];
      for i := 0 to |nums|
        invariant r == Selected(table.constraints, nums[..i])
      {
        assert nums[..i + 1][..i] == nums[..i];
        if table.constraints[nums[i]].ignore {
          continue;
        }
        r := r + [table.constraints[nums[i]]];
      }
      assert nums[..|nums|] == nums;
      SelectedAreLive(table.constraints);
    }
  }

  lemma SchemasSnoc(m: map<string, nat>, xs: seq<Schema>, x: Schema)
    requires SchemasKnown(m, xs)
    ensures SchemasKnown(m[x.name := |xs|], xs + [x])
  {
    forall n ensures At(m[x.name := |xs|], n) == LastIndex(xs + [x], n) {
      LastIndexSnoc(xs, x, n);
      assert At(m, n) == LastIndex(xs, n);
    }
  }

  /** The constraints at some positions that are not ignored. */
  function Selected(cs: seq<Constraint>, nums: seq<nat>): seq<Constraint>
    requires forall k :: 0 <= k < |nums| ==> nums[k] < |cs|
  {
    if nums == [] then []
    else
      var c := cs[nums[|nums| - 1]];
      Selected(cs, nums[..|nums| - 1]) + (if c.ignore then [] else [c])
  }

  lemma {:induction false} SelectedPrefix(cs: seq<Constraint>, ds: seq<Constraint>, nums: seq<nat>)
    requires cs <= ds && forall k :: 0 <= k < |nums| ==> nums[k] < |cs|
    ensures Selected(ds, nums) == Selected(cs, nums)
  {
    if nums == [] {
    } else {
      SelectedPrefix(cs, ds, nums[..|nums| - 1]);
    }
  }

  /** The positions of the foreign keys select the foreign keys. */
  lemma {:induction false} SelectedAreLive(cs: seq<Constraint>)
    ensures Selected(cs, FkeyIndexes(cs)) == LiveFkeys(cs)
  {
    if cs == [] {
    } else {
      var init := cs[..|cs| - 1];
      SelectedAreLive(init);
      SelectedPrefix(init, cs, FkeyIndexes(init));
      if cs[|cs| - 1].def.constraintType == ForeignKey {
        assert FkeyIndexes(cs)[..|FkeyIndexes(cs)| - 1] == FkeyIndexes(init);
      } else {
        assert FkeyIndexes(cs) == FkeyIndexes(init);
      }
    }
  }
}
