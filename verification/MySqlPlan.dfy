/** The MySQL migration planner: what it takes to turn one catalog into another. */
module MySqlPlan {
  import opened Common
  import opened Catalogs

  /** A foreign key together with the table that holds it. */
  datatype TableKey = TableKey(table: TableID, constraint: Constraint)

  datatype AlterTable = AlterTable(
    id: TableID,
    dropConstraints: seq<Constraint>,
    dropIndexes: seq<Index>,
    dropColumns: seq<Column>,
    addColumns: seq<Column>,
    alterColumns: seq<(Column, Column)>,
    createIndexes: seq<Index>,
    addConstraints: seq<Constraint>)

  datatype NewTable = NewTable(id: TableID, table: Table)

  datatype Migration = Migration(
    dropFkeys: seq<TableKey>,
    dropSchemas: seq<string>,
    createSchemas: seq<string>,
    dropTables: seq<TableID>,
    createTables: seq<NewTable>,
    alterTables: seq<AlterTable>,
    addFkeys: seq<TableKey>)

  const NOTHING := Migration([], [], [], [], [], [], [])

  /** One migration after another, phase by phase. */
  function Plus(a: Migration, b: Migration): Migration {
    Migration(a.dropFkeys + b.dropFkeys, a.dropSchemas + b.dropSchemas, a.createSchemas + b.createSchemas,
              a.dropTables + b.dropTables, a.createTables + b.createTables, a.alterTables + b.alterTables,
              a.addFkeys + b.addFkeys)
  }

  // ----- the difference of one table -----

  /** Only the presence of an identity is compared, and NOT NULL not on a primary key. */
  predicate ColumnsDiffer(collation: string, src: ColumnDef, dest: ColumnDef) {
    || src.columnType != dest.columnType
    || src.default != dest.default
    || (src.isNotNull != dest.isNotNull && !dest.isPrimaryKey)
    || (src.identity != "" && dest.identity == "") || (src.identity == "" && dest.identity != "")
    || (if src.collation == "" then collation else src.collation) != (if dest.collation == "" then collation
       else dest.collation)
  }

  /** The columns of dest that src has with another definition, as pairs. */
  function Altered(collation: string, src: seq<Column>, dest: seq<Column>): seq<(Column, Column)> {
    if dest == [] then []
    else
      var c := dest[|dest| - 1];
      Altered(collation, src, dest[..|dest| - 1])
      + (match Find(src, c.name)
         case Some(s) => if !c.ignore && ColumnsDiffer(collation, s.def, c.def) then [(s, c)] else []
         case None => [])
  }

  predicate IsKey(c: Constraint) {
    c.def.constraintType == PrimaryKey || c.def.constraintType == Unique
  }

  function KeysOf(cs: seq<Constraint>): seq<Constraint> {
    if cs == [] then []
    else KeysOf(cs[..|cs| - 1]) + (if IsKey(cs[|cs| - 1]) then [cs[|cs| - 1]] else [])
  }

  function FkeysOf(id: TableID, cs: seq<Constraint>): seq<TableKey> {
    if cs == [] then []
    else
      FkeysOf(id, cs[..|cs| - 1])
      + (if cs[|cs| - 1].def.constraintType == ForeignKey then [TableKey(id, cs[|cs| - 1])] else [])
  }

  /** The foreign keys of a table that are not ignored. */
  function LiveFkeys(id: TableID, cs: seq<Constraint>): seq<TableKey> {
    if cs == [] then []
    else
      LiveFkeys(id, cs[..|cs| - 1])
      + (if cs[|cs| - 1].def.constraintType == ForeignKey && !cs[|cs| - 1].ignore then [TableKey(id, cs[|cs| - 1])]
          else [])
  }

  /** A primary key whose columns have changed: MySQL calls every primary key PRIMARY. */
  predicate Replaced(src: seq<Constraint>, c: Constraint) {
    !c.ignore && c.def.constraintType == PrimaryKey
    && Find(src, c.name).Some? && Find(src, c.name).value.def.columns != c.def.columns
  }

  /** The source's version of each replaced primary key. */
  function OldKeys(src: seq<Constraint>, dest: seq<Constraint>): seq<Constraint> {
    if dest == [] then []
    else
      OldKeys(src, dest[..|dest| - 1])
      + (if Replaced(src, dest[|dest| - 1]) then [Find(src, dest[|dest| - 1].name).value] else [])
  }

  /** The keys to add: those missing and those replaced. */
  function NewKeys(src: seq<Constraint>, dest: seq<Constraint>): seq<Constraint> {
    if dest == [] then []
    else
      var c := dest[|dest| - 1];
      NewKeys(src, dest[..|dest| - 1])
      + (if Replaced(src, c) || (!c.ignore && Find(src, c.name).None? && IsKey(c)) then [c] else [])
  }

  function Alter(id: TableID, collation: string, src: TableDef, dest: TableDef, dropObjects: bool): AlterTable {
    AlterTable(
      id,
      (if dropObjects then KeysOf(Missing(src.constraints, dest.constraints)) else [])
        + OldKeys(src.constraints, dest.constraints),
      if dropObjects then Missing(src.indexes, dest.indexes) else [],
      if dropObjects then Missing(src.columns, dest.columns) else [],
      Missing(dest.columns, src.columns),
      Altered(collation, src.columns, dest.columns),
      Missing(dest.indexes, src.indexes),
      NewKeys(src.constraints, dest.constraints))
  }

  /** The planner keeps an ALTER TABLE if it does anything, except that dropping columns
      does not count. */
  predicate Keeps(a: AlterTable) {
    || a.dropConstraints != [] || a.dropIndexes != [] || a.addColumns != [] || a.alterColumns != []
    || a.createIndexes != [] || a.addConstraints != []
  }

  function Create(schema: string, table: Table): Migration {
    var id := TableID(schema, table.name);
    NOTHING.(createTables := [NewTable(id, table)], addFkeys := LiveFkeys(id, table.def.constraints))
  }

  function DiffTable(schema: string, collation: string, src: seq<Table>, table: Table, dropObjects: bool): Migration {
    if table.ignore then NOTHING
    else
      match Find(src, table.name)
      case None => Create(schema, table)
      case Some(s) =>
        var id := TableID(schema, table.name);
        var a := Alter(id, collation, s.def, table.def, dropObjects);
        NOTHING.(dropFkeys := if dropObjects then FkeysOf(id, Missing(s.def.constraints, table.def.constraints))
            else [],
                 alterTables := if Keeps(a) then [a] else [],
                 addFkeys := FkeysOf(id, Missing(table.def.constraints, s.def.constraints)))
  }

  // ----- the difference of two catalogs -----

  function Sum(ms: seq<Migration>): Migration {
    if ms == [] then NOTHING else Plus(Sum(ms[..|ms| - 1]), ms[|ms| - 1])
  }

  function TableDiffs(schema: string, collation: string, src: seq<Table>, dest: seq<Table>,
                      dropObjects: bool): (parts: seq<Migration>) {
    seq(|dest|, i requires 0 <= i < |dest| => DiffTable(schema, collation, src, dest[i], dropObjects))
  }

  function DiffTables(schema: string, collation: string, src: seq<Table>, dest: seq<Table>,
                      dropObjects: bool): Migration {
    Sum(TableDiffs(schema, collation, src, dest, dropObjects))
  }

  function CreateLive(schema: string, table: Table): Migration {
    if table.ignore then NOTHING else Create(schema, table)
  }

  function TableCreations(schema: string, dest: seq<Table>): (parts: seq<Migration>) {
    seq(|dest|, i requires 0 <= i < |dest| => CreateLive(schema, dest[i]))
  }

  function CreateTables(schema: string, dest: seq<Table>): Migration {
    Sum(TableCreations(schema, dest))
  }

  /** DROP TABLE for a table that dest does not have, and its foreign keys before. */
  function DropTable(schema: string, table: Table, dest: seq<Table>): Migration {
    var id := TableID(schema, table.name);
    if !table.ignore && Find(dest, table.name).None?
    then NOTHING.(dropTables := [id], dropFkeys := LiveFkeys(id, table.def.constraints))
    else NOTHING
  }

  function TableDrops(schema: string, src: seq<Table>, dest: seq<Table>): (parts: seq<Migration>) {
    seq(|src|, i requires 0 <= i < |src| => DropTable(schema, src[i], dest))
  }

  function DropTables(schema: string, src: seq<Table>, dest: seq<Table>): Migration {
    Sum(TableDrops(schema, src, dest))
  }

  function DropFkeysOf(schema: string, table: Table): Migration {
    if table.ignore then NOTHING
    else NOTHING.(dropFkeys := LiveFkeys(TableID(schema, table.name), table.def.constraints))
  }

  function FkeyDrops(schema: string, src: seq<Table>): (parts: seq<Migration>) {
    seq(|src|, i requires 0 <= i < |src| => DropFkeysOf(schema, src[i]))
  }

  function DropFkeys(schema: string, src: seq<Table>): Migration {
    Sum(FkeyDrops(schema, src))
  }

  /** DROP SCHEMA for a schema that dest does not have, and the foreign keys of its tables before. */
  function DropSchema(schema: Schema, dest: seq<Schema>): Migration {
    if schema.ignore || Find(dest, schema.name).Some? then NOTHING
    else Plus(NOTHING.(dropSchemas := if schema.name != "" then [schema.name] else []),
              DropFkeys(schema.name, schema.def))
  }

  function SchemaDrops(src: seq<Schema>, dest: seq<Schema>): (parts: seq<Migration>) {
    seq(|src|, i requires 0 <= i < |src| => DropSchema(src[i], dest))
  }

  function DropSchemas(src: seq<Schema>, dest: seq<Schema>): Migration {
    Sum(SchemaDrops(src, dest))
  }

  function DiffSchema(collation: string, src: seq<Schema>, dest: Schema, dropObjects: bool): Migration {
    if dest.ignore then NOTHING
    else
      match Find(src, dest.name)
      case None =>
        Plus(NOTHING.(createSchemas := if dest.name != "" then [dest.name] else []), CreateTables(dest.name, dest.def))
      case Some(s) =>
        Plus(if dropObjects then DropTables(dest.name, s.def, dest.def) else NOTHING,
             DiffTables(dest.name, collation, s.def, dest.def, dropObjects))
  }

  function SchemaDiffs(collation: string, src: seq<Schema>, dest: seq<Schema>,
                       dropObjects: bool): (parts: seq<Migration>) {
    seq(|dest|, i requires 0 <= i < |dest| => DiffSchema(collation, src, dest[i], dropObjects))
  }

  function DiffSchemas(collation: string, src: seq<Schema>, dest: seq<Schema>, dropObjects: bool): Migration {
    Sum(SchemaDiffs(collation, src, dest, dropObjects))
  }

  function Plan(src: Catalog, dest: Catalog, dropObjects: bool): Migration {
    Plus(if dropObjects then DropSchemas(src.schemas, dest.schemas) else NOTHING,
         DiffSchemas(src.defaultCollation, src.schemas, dest.schemas, dropObjects))
  }

  // ----- the planner as it runs -----

  /** Appending to the slices of a migration under way. */
  lemma PlusAssociates(a: Migration, b: Migration, c: Migration)
    ensures Plus(Plus(a, b), c) == Plus(a, Plus(b, c))
    ensures Plus(a, NOTHING) == a && Plus(NOTHING, a) == a
  {
    assert forall x: seq<TableKey>, y, z :: x + y + z == x + (y + z);
  }

  lemma SumSnoc(ms: seq<Migration>, k: nat)
    requires k < |ms|
    ensures Sum(ms[..k + 1]) == Plus(Sum(ms[..k]), ms[k])
  {
    assert ms[..k + 1][..k] == ms[..k];
  }

  lemma MissingSnoc<T>(xs: seq<Object<T>>, others: seq<Object<T>>, k: nat)
    requires k < |xs|
    ensures Missing(xs[..k + 1], others)
         == if !xs[k].ignore && Find(others, xs[k].name).None? then Missing(xs[..k], others) + [xs[k]]
             else Missing(xs[..k], others)
  {
    assert xs[..k + 1][..k] == xs[..k];
  }

  lemma ReplacedSnoc(src: seq<Constraint>, dest: seq<Constraint>, k: nat)
    requires k < |dest|
    ensures OldKeys(src, dest[..k + 1])
         == OldKeys(src, dest[..k]) + (if Replaced(src, dest[k]) then [Find(src, dest[k].name).value] else [])
    ensures NewKeys(src, dest[..k + 1])
         == NewKeys(src, dest[..k])
            + (if Replaced(src, dest[k])
                || (!dest[k].ignore && Find(src, dest[k].name).None? && IsKey(dest[k])) then [dest[k]] else [])
  {
    assert dest[..k + 1][..k] == dest[..k];
  }

  lemma Snoc(id: TableID, cs: seq<Constraint>, c: Constraint)
    ensures KeysOf(cs + [c]) == KeysOf(cs) + (if IsKey(c) then [c] else [])
    ensures FkeysOf(id, cs + [c])
        == FkeysOf(id, cs) + (if c.def.constraintType == ForeignKey then [TableKey(id, c)] else [])
  {
    assert (cs + [c])[..|cs|] == cs;
  }

  /** One dest table that src has too: its foreign keys to drop and add, and its ALTER TABLE. */
  method CompareTable(id: TableID, collation: string, src: TableDef, dest: TableDef,
                      dropObjects: bool) returns (m: Migration)
    ensures m == NOTHING.(
              dropFkeys := if dropObjects then FkeysOf(id, Missing(src.constraints, dest.constraints)) else [],
              alterTables := if Keeps(Alter(id, collation, src, dest, dropObjects))
                  then [Alter(id, collation, src, dest, dropObjects)] else [],
              addFkeys := FkeysOf(id, Missing(dest.constraints, src.constraints)))
  {
    var a := AlterTable(id, [], [], [], [], [], [], []);
    m := NOTHING;
    if dropObjects {
      var keys, fkeys := OldConstraints(id, src.constraints, dest.constraints);
      m := m.(dropFkeys := fkeys);
      var indexes := MissingFrom(src.indexes, dest.indexes);
      var columns := MissingFrom(src.columns, dest.columns);
      a := a.(dropConstraints := keys, dropIndexes := indexes, dropColumns := columns);
    }
    var added, altered := CompareColumns(collation, src.columns, dest.columns);
    var created := MissingFrom(dest.indexes, src.indexes);
    var replaced, keys, fkeys := CompareConstraints(id, src.constraints, dest.constraints);
    a := a.(dropConstraints := a.dropConstraints + replaced, addColumns := added, alterColumns := altered,
            createIndexes := created, addConstraints := keys);
    m := m.(addFkeys := fkeys);
    if |a.dropConstraints| > 0 || |a.dropIndexes| > 0 || |a.addColumns| > 0 || |a.alterColumns| > 0
       || |a.createIndexes| > 0 || |a.addConstraints| > 0
    {
      m := m.(alterTables := [a]);
    }
  }

  /** The constraints of src that dest does not have. */
  method OldConstraints(id: TableID, src: seq<Constraint>, dest: seq<Constraint>) returns (keys: seq<Constraint>,
      fkeys: seq<TableKey>)
    ensures keys == KeysOf(Missing(src, dest)) && fkeys == FkeysOf(id, Missing(src, dest))
  {
    keys, fkeys := [], [];
    for k := 0 to |src|
      invariant keys == KeysOf(Missing(src[..k], dest)) && fkeys == FkeysOf(id, Missing(src[..k], dest))
    {
      var c := src[k];
      assert src[..k + 1][..k] == src[..k];
      MissingSnoc(src, dest, k);
      Snoc(id, Missing(src[..k], dest), c);
      if c.ignore {
        continue;
      }
      if Find(dest, c.name).None? {
        match c.def.constraintType
        case PrimaryKey => keys := keys + [c];
        case Unique => keys := keys + [c];
        case ForeignKey => fkeys := fkeys + [TableKey(id, c)];
        case Check =>
      }
    }
    assert src[..|src|] == src;
  }

  /** The constraints of dest that src does not have, and its replaced primary keys. */
  method CompareConstraints(id: TableID, src: seq<Constraint>, dest: seq<Constraint>)
    returns (replaced: seq<Constraint>, keys: seq<Constraint>, fkeys: seq<TableKey>)
    ensures replaced == OldKeys(src, dest) && keys == NewKeys(src, dest) && fkeys == FkeysOf(id, Missing(dest, src))
  {
    replaced, keys, fkeys := [], [], [];
    for k := 0 to |dest|
      invariant replaced == OldKeys(src, dest[..k]) && keys == NewKeys(src, dest[..k])
      invariant fkeys == FkeysOf(id, Missing(dest[..k], src))
    {
      var c := dest[k];
      ReplacedSnoc(src, dest, k);
      MissingSnoc(dest, src, k);
      Snoc(id, Missing(dest[..k], src), c);
      if c.ignore {
        continue;
      }
      match Find(src, c.name)
      case None =>
        match c.def.constraintType {
          case PrimaryKey => keys := keys + [c];
          case Unique => keys := keys + [c];
          case ForeignKey => fkeys := fkeys + [TableKey(id, c)];
          case Check =>
        }
      case Some(s) =>
        if c.def.constraintType == PrimaryKey && s.def.columns != c.def.columns {
          replaced, keys := replaced + [s], keys + [c];
        }
    }
    assert dest[..|dest|] == dest;
  }

  method CompareColumns(collation: string, src: seq<Column>, dest: seq<Column>)
    returns (added: seq<Column>, altered: seq<(Column, Column)>)
    ensures added == Missing(dest, src) && altered == Altered(collation, src, dest)
  {
    added, altered := [], [];
    for k := 0 to |dest|
      invariant added == Missing(dest[..k], src) && altered == Altered(collation, src, dest[..k])
    {
      var c := dest[k];
      assert dest[..k + 1][..k] == dest[..k];
      if c.ignore {
        continue;
      }
      match Find(src, c.name)
      case None =>
        added := added + [c];
      case Some(s) =>
        if ColumnsDiffer(collation, s.def, c.def) {
          altered := altered + [(s, c)];
        }
    }
    assert dest[..|dest|] == dest;
  }

  method LiveForeignKeys(id: TableID, cs: seq<Constraint>) returns (fkeys: seq<TableKey>)
    ensures fkeys == LiveFkeys(id, cs)
  {
    fkeys := [];
    for k := 0 to |cs|
      invariant fkeys == LiveFkeys(id, cs[..k])
    {
      assert cs[..k + 1][..k] == cs[..k];
      if cs[k].def.constraintType == ForeignKey && !cs[k].ignore {
        fkeys := fkeys + [TableKey(id, cs[k])];
      }
    }
    assert cs[..|cs|] == cs;
  }

  /** The tables of a dest schema that src has too. */
  method CompareSchema(schema: string, collation: string, src: seq<Table>, dest: seq<Table>,
                       dropObjects: bool) returns (m: Migration)
    ensures m == Plus(if dropObjects then DropTables(schema, src, dest) else NOTHING,
                      DiffTables(schema, collation, src, dest, dropObjects))
  {
    m := NOTHING;
    if dropObjects {
      ghost var drops := TableDrops(schema, src, dest);
      for j := 0 to |src|
        invariant m == Sum(drops[..j])
      {
        SumSnoc(drops, j);
        PlusAssociates(m, NOTHING, NOTHING);
        if src[j].ignore {
          continue;
        }
        if Find(dest, src[j].name).None? {
          var fkeys := LiveForeignKeys(TableID(schema, src[j].name), src[j].def.constraints);
          m := m.(dropTables := m.dropTables + [TableID(schema, src[j].name)], dropFkeys := m.dropFkeys + fkeys);
        }
      }
      assert drops[..|src|] == drops;
    }
    ghost var dropped := m;
    ghost var diffs := TableDiffs(schema, collation, src, dest, dropObjects);
    PlusAssociates(dropped, NOTHING, NOTHING);
    for j := 0 to |dest|
      invariant m == Plus(dropped, Sum(diffs[..j]))
    {
      SumSnoc(diffs, j);
      PlusAssociates(dropped, Sum(diffs[..j]), diffs[j]);
      PlusAssociates(m, NOTHING, NOTHING);
      if dest[j].ignore {
        continue;
      }
      var id := TableID(schema, dest[j].name);
      match Find(src, dest[j].name)
      case None =>
        var fkeys := LiveForeignKeys(id, dest[j].def.constraints);
        m := m.(createTables := m.createTables + [NewTable(id, dest[j])], addFkeys := m.addFkeys + fkeys);
      case Some(s) =>
        var d := CompareTable(id, collation, s.def, dest[j].def, dropObjects);
        m := m.(dropFkeys := m.dropFkeys + d.dropFkeys, alterTables := m.alterTables + d.alterTables,
                addFkeys := m.addFkeys + d.addFkeys);
    }
    assert diffs[..|dest|] == diffs;
  }

  /** The tables of a dest schema that src does not have. */
  method NewSchema(schema: string, dest: seq<Table>) returns (m: Migration)
    ensures m == Plus(NOTHING.(createSchemas := if schema != "" then [schema] else []), CreateTables(schema, dest))
  {
    m := NOTHING;
    if schema != "" {
      m := m.(createSchemas := [schema]);
    }
    ghost var start := m;
    ghost var creates := TableCreations(schema, dest);
    PlusAssociates(start, NOTHING, NOTHING);
    for j := 0 to |dest|
      invariant m == Plus(start, Sum(creates[..j]))
    {
      SumSnoc(creates, j);
      PlusAssociates(start, Sum(creates[..j]), creates[j]);
      PlusAssociates(m, NOTHING, NOTHING);
      if dest[j].ignore {
        continue;
      }
      var id := TableID(schema, dest[j].name);
      var fkeys := LiveForeignKeys(id, dest[j].def.constraints);
      m := m.(createTables := m.createTables + [NewTable(id, dest[j])], addFkeys := m.addFkeys + fkeys);
    }
    assert creates[..|dest|] == creates;
  }

  method OldSchemas(src: seq<Schema>, dest: seq<Schema>) returns (m: Migration)
    ensures m == DropSchemas(src, dest)
  {
    m := NOTHING;
    ghost var drops := SchemaDrops(src, dest);
    for i := 0 to |src|
      invariant m == Sum(drops[..i])
    {
      SumSnoc(drops, i);
      PlusAssociates(m, NOTHING, NOTHING);
      if src[i].ignore || Find(dest, src[i].name).Some? {
        continue;
      }
      ghost var before := m;
      var name := src[i].name;
      if name != "" {
        m := m.(dropSchemas := m.dropSchemas + [name]);
      }
      ghost var start := m;
      ghost var fkeyDrops := FkeyDrops(name, src[i].def);
      PlusAssociates(start, NOTHING, NOTHING);
      for j := 0 to |src[i].def|
        invariant m == Plus(start, Sum(fkeyDrops[..j]))
      {
        SumSnoc(fkeyDrops, j);
        PlusAssociates(start, Sum(fkeyDrops[..j]), fkeyDrops[j]);
        PlusAssociates(m, NOTHING, NOTHING);
        if src[i].def[j].ignore {
          continue;
        }
        var fkeys := LiveForeignKeys(TableID(name, src[i].def[j].name), src[i].def[j].def.constraints);
        m := m.(dropFkeys := m.dropFkeys + fkeys);
      }
      assert fkeyDrops[..|src[i].def|] == fkeyDrops;
      assert m == Plus(start, DropFkeys(name, src[i].def));
      PlusAssociates(before, NOTHING.(dropSchemas := if name != "" then [name] else []), DropFkeys(name, src[i].def));
    }
    assert drops[..|src|] == drops;
  }

  /** The planner: it computes the plan. */
  method NewMigration(src: Catalog, dest: Catalog, dropObjects: bool) returns (m: Migration)
    ensures m == Plan(src, dest, dropObjects)
  {
    m := NOTHING;
    if dropObjects {
      m := OldSchemas(src.schemas, dest.schemas);
    }
    ghost var drops := m;
    ghost var diffs := SchemaDiffs(src.defaultCollation, src.schemas, dest.schemas, dropObjects);
    PlusAssociates(drops, NOTHING, NOTHING);
    for i := 0 to |dest.schemas|
      invariant m == Plus(drops, Sum(diffs[..i]))
    {
      SumSnoc(diffs, i);
      PlusAssociates(drops, Sum(diffs[..i]), diffs[i]);
      PlusAssociates(m, NOTHING, NOTHING);
      var d := dest.schemas[i];
      if d.ignore {
        continue;
      }
      var part;
      match Find(src.schemas, d.name)
      case None =>
        part := NewSchema(d.name, d.def);
        m := Plus(m, part);
      case Some(s) =>
        part := CompareSchema(d.name, src.defaultCollation, s.def, d.def, dropObjects);
        m := Plus(m, part);
    }
    assert diffs[..|dest.schemas|] == diffs;
    assert Sum(diffs) == DiffSchemas(src.defaultCollation, src.schemas, dest.schemas, dropObjects);
    assert drops == if dropObjects then DropSchemas(src.schemas, dest.schemas) else NOTHING;
  }
}
