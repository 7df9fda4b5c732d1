/** The statements a MySQL migration is written out as, in the order of its files. */
module MySqlSql {
  import opened Common
  import opened Catalogs
  import opened MySqlPlan
  import DB = MySqlDatabase

  type Statement = DB.Statement
  type Clause = DB.Clause

  // ----- the statements of each phase -----

  function FkeyDropsOf(fkeys: seq<TableKey>): seq<Statement> {
    if fkeys == [] then []
    else
      var f := fkeys[|fkeys| - 1];
      FkeyDropsOf(fkeys[..|fkeys| - 1]) + [DB.DropForeignKey(f.table, f.constraint.name)]
  }

  function SchemaDropsOf(schemas: seq<string>): seq<Statement> {
    if schemas == [] then []
    else SchemaDropsOf(schemas[..|schemas| - 1]) + [DB.DropSchemaIfExists(schemas[|schemas| - 1])]
  }

  function SchemaCreationsOf(schemas: seq<string>): seq<Statement> {
    if schemas == [] then []
    else SchemaCreationsOf(schemas[..|schemas| - 1]) + [DB.CreateSchemaIfNotExists(schemas[|schemas| - 1])]
  }

  function TableDropsOf(tables: seq<TableID>): seq<Statement> {
    if tables == [] then []
    else TableDropsOf(tables[..|tables| - 1]) + [DB.DropTableIfExists(tables[|tables| - 1])]
  }

  /** The objects that are not ignored. */
  function Written<T>(xs: seq<Object<T>>): seq<Object<T>> {
    if xs == [] then []
    else Written(xs[..|xs| - 1]) + (if xs[|xs| - 1].ignore then [] else [xs[|xs| - 1]])
  }

  /** The constraints that a CREATE TABLE states: foreign keys are added at the end. */
  function NotFkeys(cs: seq<Constraint>): seq<Constraint> {
    if cs == [] then []
    else
      NotFkeys(cs[..|cs| - 1])
      + (if cs[|cs| - 1].ignore || cs[|cs| - 1].def.constraintType == ForeignKey then [] else [cs[|cs| - 1]])
  }

  function IndexCreationsOf(id: TableID, indexes: seq<Index>): seq<Statement> {
    if indexes == [] then []
    else IndexCreationsOf(id, indexes[..|indexes| - 1]) + [DB.CreateIndex(id, indexes[|indexes| - 1])]
  }

  function CreationOf(t: NewTable): seq<Statement> {
    [DB.CreateTable(t.id, Written(t.table.def.columns), NotFkeys(t.table.def.constraints))]
    + IndexCreationsOf(t.id, t.table.def.indexes)
  }

  function TableCreationsOf(tables: seq<NewTable>): seq<Statement> {
    if tables == [] then []
    else TableCreationsOf(tables[..|tables| - 1]) + CreationOf(tables[|tables| - 1])
  }

  function ConstraintDrops(cs: seq<Constraint>): seq<Clause> {
    if cs == [] then [] else ConstraintDrops(cs[..|cs| - 1]) + [DB.DropConstraint(cs[|cs| - 1].name)]
  }

  function IndexDrops(xs: seq<Index>): seq<Clause> {
    if xs == [] then [] else IndexDrops(xs[..|xs| - 1]) + [DB.DropIndex(xs[|xs| - 1].name)]
  }

  function ColumnDrops(cs: seq<Column>): seq<Clause> {
    if cs == [] then [] else ColumnDrops(cs[..|cs| - 1]) + [DB.DropColumn(cs[|cs| - 1].name)]
  }

  function ColumnAdds(cs: seq<Column>): seq<Clause> {
    if cs == [] then [] else ColumnAdds(cs[..|cs| - 1]) + [DB.AddColumn(cs[|cs| - 1])]
  }

  function ColumnChanges(cs: seq<(Column, Column)>): seq<Clause> {
    if cs == [] then [] else ColumnChanges(cs[..|cs| - 1]) + [DB.ModifyColumn(cs[|cs| - 1].1)]
  }

  function IndexAdds(xs: seq<Index>): seq<Clause> {
    if xs == [] then [] else IndexAdds(xs[..|xs| - 1]) + [DB.AddIndex(xs[|xs| - 1])]
  }

  function ConstraintAdds(cs: seq<Constraint>): seq<Clause> {
    if cs == [] then [] else ConstraintAdds(cs[..|cs| - 1]) + [DB.AddConstraint(cs[|cs| - 1])]
  }

  function DropClauses(a: AlterTable): seq<Clause> {
    ConstraintDrops(a.dropConstraints) + IndexDrops(a.dropIndexes) + ColumnDrops(a.dropColumns)
  }

  function AddClauses(a: AlterTable): seq<Clause> {
    ColumnAdds(a.addColumns) + ColumnChanges(a.alterColumns) + IndexAdds(a.createIndexes)
        + ConstraintAdds(a.addConstraints)
  }

  function Clauses(a: AlterTable): seq<Clause> {
    DropClauses(a) + AddClauses(a)
  }

  function AlterationsOf(tables: seq<AlterTable>): seq<Statement> {
    if tables == [] then []
    else
      var a := tables[|tables| - 1];
      AlterationsOf(tables[..|tables| - 1]) + [DB.AlterTable(a.id, Clauses(a))]
  }

  function FkeyAddsOf(fkeys: seq<TableKey>): seq<Statement> {
    if fkeys == [] then []
    else
      var f := fkeys[|fkeys| - 1];
      FkeyAddsOf(fkeys[..|fkeys| - 1]) + [DB.AddForeignKey(f.table, f.constraint)]
  }

  function SchemaStatements(m: Migration): seq<Statement> {
    SchemaDropsOf(m.dropSchemas) + SchemaCreationsOf(m.createSchemas)
  }

  function TableStatements(m: Migration): seq<Statement> {
    TableDropsOf(m.dropTables) + TableCreationsOf(m.createTables)
  }

  function Statements(m: Migration): seq<Statement> {
    FkeyDropsOf(m.dropFkeys) + SchemaStatements(m) + TableStatements(m) + AlterationsOf(m.alterTables)
        + FkeyAddsOf(m.addFkeys)
  }

  // ----- writing them out -----

  method Sql(m: Migration) returns (sql: seq<Statement>)
    ensures sql == Statements(m)
  {
    sql := FkeyDropSql(m.dropFkeys);
    var part := SchemaSql(m);
    sql := sql + part;
    part := TableSql(m);
    sql := sql + part;
    part := AlterSql(m.alterTables);
    sql := sql + part;
    part := FkeyAddSql(m.addFkeys);
    sql := sql + part;
  }

  method FkeyDropSql(fkeys: seq<TableKey>) returns (sql: seq<Statement>)
    ensures sql == FkeyDropsOf(fkeys)
  {
    sql := [];
    for k := 0 to |fkeys|
      invariant sql == FkeyDropsOf(fkeys[..k])
    {
      assert fkeys[..k + 1][..k] == fkeys[..k];
      sql := sql + [DB.DropForeignKey(fkeys[k].table, fkeys[k].constraint.name)];
    }
    assert fkeys[..|fkeys|] == fkeys;
  }

  method FkeyAddSql(fkeys: seq<TableKey>) returns (sql: seq<Statement>)
    ensures sql == FkeyAddsOf(fkeys)
  {
    sql := [];
    for k := 0 to |fkeys|
      invariant sql == FkeyAddsOf(fkeys[..k])
    {
      assert fkeys[..k + 1][..k] == fkeys[..k];
      sql := sql + [DB.AddForeignKey(fkeys[k].table, fkeys[k].constraint)];
    }
    assert fkeys[..|fkeys|] == fkeys;
  }

  method SchemaSql(m: Migration) returns (sql: seq<Statement>)
    ensures sql == SchemaStatements(m)
  {
    sql := [];
    for k := 0 to |m.dropSchemas|
      invariant sql == SchemaDropsOf(m.dropSchemas[..k])
    {
      assert m.dropSchemas[..k + 1][..k] == m.dropSchemas[..k];
      sql := sql + [DB.DropSchemaIfExists(m.dropSchemas[k])];
    }
    assert m.dropSchemas[..|m.dropSchemas|] == m.dropSchemas;
    ghost var before := sql;
    for k := 0 to |m.createSchemas|
      invariant sql == before + SchemaCreationsOf(m.createSchemas[..k])
    {
      assert m.createSchemas[..k + 1][..k] == m.createSchemas[..k];
      sql := sql + [DB.CreateSchemaIfNotExists(m.createSchemas[k])];
    }
    assert m.createSchemas[..|m.createSchemas|] == m.createSchemas;
  }

  method TableSql(m: Migration) returns (sql: seq<Statement>)
    ensures sql == TableStatements(m)
  {
    sql := [];
    for k := 0 to |m.dropTables|
      invariant sql == TableDropsOf(m.dropTables[..k])
    {
      assert m.dropTables[..k + 1][..k] == m.dropTables[..k];
      sql := sql + [DB.DropTableIfExists(m.dropTables[k])];
    }
    assert m.dropTables[..|m.dropTables|] == m.dropTables;
    ghost var before := sql;
    for k := 0 to |m.createTables|
      invariant sql == before + TableCreationsOf(m.createTables[..k])
    {
      assert m.createTables[..k + 1][..k] == m.createTables[..k];
      var creation := CreateSql(m.createTables[k]);
      sql := sql + creation;
    }
    assert m.createTables[..|m.createTables|] == m.createTables;
  }

  method CreateSql(t: NewTable) returns (sql: seq<Statement>)
    ensures sql == CreationOf(t)
  {
    var columns, constraints := [], [];
    var d := t.table.def;
    for k := 0 to |d.columns|
      invariant columns == Written(d.columns[..k])
    {
      assert d.columns[..k + 1][..k] == d.columns[..k];
      if d.columns[k].ignore {
        continue;
      }
      columns := columns + [d.columns[k]];
    }
    assert d.columns[..|d.columns|] == d.columns;
    for k := 0 to |d.constraints|
      invariant constraints == NotFkeys(d.constraints[..k])
    {
      assert d.constraints[..k + 1][..k] == d.constraints[..k];
      if d.constraints[k].ignore || d.constraints[k].def.constraintType == ForeignKey {
        continue;
      }
      constraints := constraints + [d.constraints[k]];
    }
    assert d.constraints[..|d.constraints|] == d.constraints;
    sql := [DB.CreateTable(t.id, columns, constraints)];
    ghost var before := sql;
    for k := 0 to |d.indexes|
      invariant sql == before + IndexCreationsOf(t.id, d.indexes[..k])
    {
      assert d.indexes[..k + 1][..k] == d.indexes[..k];
      sql := sql + [DB.CreateIndex(t.id, d.indexes[k])];
    }
    assert d.indexes[..|d.indexes|] == d.indexes;
  }

  method AlterSql(tables: seq<AlterTable>) returns (sql: seq<Statement>)
    ensures sql == AlterationsOf(tables)
  {
    sql := [];
    for k := 0 to |tables|
      invariant sql == AlterationsOf(tables[..k])
    {
      assert tables[..k + 1][..k] == tables[..k];
      var drops := DropSql(tables[k]);
      var adds := AddSql(tables[k]);
      sql := sql + [DB.AlterTable(tables[k].id, drops + adds)];
    }
    assert tables[..|tables|] == tables;
  }

  method DropSql(a: AlterTable) returns (clauses: seq<Clause>)
    ensures clauses == DropClauses(a)
  {
    clauses := [];
    for k := 0 to |a.dropConstraints|
      invariant clauses == ConstraintDrops(a.dropConstraints[..k])
    {
      assert a.dropConstraints[..k + 1][..k] == a.dropConstraints[..k];
      clauses := clauses + [DB.DropConstraint(a.dropConstraints[k].name)];
    }
    assert a.dropConstraints[..|a.dropConstraints|] == a.dropConstraints;
    ghost var before := clauses;
    for k := 0 to |a.dropIndexes|
      invariant clauses == before + IndexDrops(a.dropIndexes[..k])
    {
      assert a.dropIndexes[..k + 1][..k] == a.dropIndexes[..k];
      clauses := clauses + [DB.DropIndex(a.dropIndexes[k].name)];
    }
    assert a.dropIndexes[..|a.dropIndexes|] == a.dropIndexes;
    before := clauses;
    for k := 0 to |a.dropColumns|
      invariant clauses == before + ColumnDrops(a.dropColumns[..k])
    {
      assert a.dropColumns[..k + 1][..k] == a.dropColumns[..k];
      clauses := clauses + [DB.DropColumn(a.dropColumns[k].name)];
    }
    assert a.dropColumns[..|a.dropColumns|] == a.dropColumns;
  }

  method AddSql(a: AlterTable) returns (clauses: seq<Clause>)
    ensures clauses == AddClauses(a)
  {
    clauses := [];
    for k := 0 to |a.addColumns|
      invariant clauses == ColumnAdds(a.addColumns[..k])
    {
      assert a.addColumns[..k + 1][..k] == a.addColumns[..k];
      clauses := clauses + [DB.AddColumn(a.addColumns[k])];
    }
    assert a.addColumns[..|a.addColumns|] == a.addColumns;
    ghost var before := clauses;
    for k := 0 to |a.alterColumns|
      invariant clauses == before + ColumnChanges(a.alterColumns[..k])
    {
      assert a.alterColumns[..k + 1][..k] == a.alterColumns[..k];
      clauses := clauses + [DB.ModifyColumn(a.alterColumns[k].1)];
    }
    assert a.alterColumns[..|a.alterColumns|] == a.alterColumns;
    before := clauses;
    for k := 0 to |a.createIndexes|
      invariant clauses == before + IndexAdds(a.createIndexes[..k])
    {
      assert a.createIndexes[..k + 1][..k] == a.createIndexes[..k];
      clauses := clauses + [DB.AddIndex(a.createIndexes[k])];
    }
    assert a.createIndexes[..|a.createIndexes|] == a.createIndexes;
    before := clauses;
    for k := 0 to |a.addConstraints|
      invariant clauses == before + ConstraintAdds(a.addConstraints[..k])
    {
      assert a.addConstraints[..k + 1][..k] == a.addConstraints[..k];
      clauses := clauses + [DB.AddConstraint(a.addConstraints[k])];
    }
    assert a.addConstraints[..|a.addConstraints|] == a.addConstraints;
  }
}
