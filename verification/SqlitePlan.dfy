/** How a SQLite table is to be altered: what it lacks, whether that can be done in place, and the
    statements that do it. */
module SqlitePlan {
  import opened Common
  import opened Catalogs
  import opened SqliteTables

  datatype AlterTable = AlterTable(
    src: SqliteTable,
    dest: SqliteTable,
    dropIndexes: seq<Index>,
    dropConstraints: seq<Constraint>,
    dropColumns: seq<SqlColumn>,
    addColumns: seq<SqlColumn>,
    alterColumns: seq<(SqlColumn, SqlColumn)>,
    addConstraints: seq<Constraint>,
    createIndexes: seq<Index>)

  // ----- names -----

  /** The keys of a table get names; they have none in SQLite. */
  function Renamed(table: string, cs: seq<Constraint>): seq<Constraint> {
    if cs == [] then []
    else
      var c := cs[|cs| - 1];
      Renamed(table, cs[..|cs| - 1])
      + [if c.def.constraintType == Check then c
          else c.(name := GenerateName(c.def.constraintType, table, c.def.columns))]
  }

  method Rename(table: string, cs: seq<Constraint>) returns (named: seq<Constraint>)
    ensures named == Renamed(table, cs)
  {
    named := cs;
    for k := 0 to |cs|
      invariant |named| == |cs| && named[..k] == Renamed(table, cs[..k]) && named[k..] == cs[k..]
    {
      assert cs[..k + 1][..k] == cs[..k] && named[k] == cs[k];
      if named[k].def.constraintType != Check {
        named := named[k := named[k].(name := GenerateName(named[k].def.constraintType, table, named[k].def.columns))];
      }
    }
    assert cs[..|cs|] == cs && named[..|cs|] == named;
  }

  // ----- the comparison -----

  predicate Different(s: SqliteColumn, d: SqliteColumn) {
    s.columnType != d.columnType || s.default != d.default || s.isNotNull != d.isNotNull
  }

  function Altered(src: seq<SqlColumn>, dest: seq<SqlColumn>): seq<(SqlColumn, SqlColumn)> {
    if dest == [] then []
    else
      var d := dest[|dest| - 1];
      Altered(src, dest[..|dest| - 1])
      + match Find(src, d.name)
        case None => []
        case Some(s) => if !d.ignore && Different(s.def, d.def) then [(s, d)] else []
  }

  function Diff(src: SqliteTable, dest: SqliteTable): AlterTable {
    AlterTable(
      src, dest,
      Missing(src.indexes, dest.indexes),
      Missing(src.constraints, dest.constraints),
      Missing(src.columns, dest.columns),
      Missing(dest.columns, src.columns),
      Altered(src.columns, dest.columns),
      Missing(dest.constraints, src.constraints),
      Missing(dest.indexes, src.indexes))
  }

  method Compare(src: SqliteTable, dest: SqliteTable) returns (a: AlterTable)
    ensures a == Diff(src, dest)
  {
    var dropConstraints := MissingFrom(src.constraints, dest.constraints);
    var dropIndexes := MissingFrom(src.indexes, dest.indexes);
    var dropColumns := MissingFrom(src.columns, dest.columns);
    var addColumns: seq<SqlColumn>, alterColumns: seq<(SqlColumn, SqlColumn)> := [], [];
    for k := 0 to |dest.columns|
      invariant addColumns == Missing(dest.columns[..k], src.columns)
      invariant alterColumns == Altered(src.columns, dest.columns[..k])
    {
      var d := dest.columns[k];
      assert dest.columns[..k + 1][..k] == dest.columns[..k];
      if d.ignore {
        continue;
      }
      match Find(src.columns, d.name) {
        case None => addColumns := addColumns + [d];
        case Some(s) =>
          if Different(s.def, d.def) {
            alterColumns := alterColumns + [(s, d)];
          }
      }
    }
    assert dest.columns[..|dest.columns|] == dest.columns;
    var createIndexes := MissingFrom(dest.indexes, src.indexes);
    var addConstraints := MissingFrom(dest.constraints, src.constraints);
    return AlterTable(src, dest, dropIndexes, dropConstraints, dropColumns, addColumns, alterColumns, addConstraints,
                      createIndexes);
  }

  /** There is something to do; dropping columns alone does not count. */
  predicate HasWork(a: AlterTable) {
    || a.dropConstraints != [] || a.dropIndexes != [] || a.addColumns != []
    || a.alterColumns != [] || a.createIndexes != [] || a.addConstraints != []
  }

  /** What is done to the table, if anything. Unless objects may be dropped, that is to add columns and indexes. */
  function Planned(a: AlterTable, dropObjects: bool): Option<AlterTable> {
    if !HasWork(a) then None
    else if dropObjects then Some(a)
    else if a.addColumns == [] && a.createIndexes == [] then None
    else Some(a.(dropIndexes := [], dropConstraints := [], dropColumns := [], alterColumns := [], addConstraints := []))
  }

  // ----- the decision -----

  /** The constraint is not the foreign key of one of the columns. */
  predicate NeedsCopy(c: Constraint, columns: seq<SqlColumn>) {
    !OwnKey(c.def, Names(columns))
  }

  predicate MustCopy(a: AlterTable) {
    || a.alterColumns != []
    || (exists c :: c in a.dropConstraints && NeedsCopy(c, a.dropColumns))
    || (exists c :: c in a.addConstraints && NeedsCopy(c, a.addColumns))
  }

  method NamesOf(columns: seq<SqlColumn>) returns (names: set<string>)
    ensures names == Names(columns)
  {
    names := {};
    for k := 0 to |columns|
      invariant names == Names(columns[..k])
    {
      assert columns[..k + 1][..k] == columns[..k];
      names := names + {columns[k].name};
    }
    assert columns[..|columns|] == columns;
  }

  method AnyNeedsCopy(cs: seq<Constraint>, columns: set<string>) returns (copy: bool)
    requires forall c :: c in cs && c.def.constraintType == ForeignKey ==> c.def.columns != []
    ensures copy <==> exists c :: c in cs && !OwnKey(c.def, columns)
  {
    copy := false;
    for k := 0 to |cs|
      invariant copy <==> exists i :: 0 <= i < k && !OwnKey(cs[i].def, columns)
    {
      if cs[k].def.constraintType != ForeignKey || |cs[k].def.columns| > 1 {
        copy := true;
        continue;
      }
      if cs[k].def.columns[0] !in columns {
        copy := true;
        continue;
      }
    }
  }

  /** A foreign key has columns: the first one is looked at. */
  method CopyTable(a: AlterTable) returns (copy: bool)
    requires forall c :: c in a.dropConstraints + a.addConstraints && c.def.constraintType == ForeignKey ==>
        c.def.columns != []
    ensures copy == MustCopy(a)
  {
    if a.alterColumns != [] {
      return true;
    }
    var dropped := NamesOf(a.dropColumns);
    var added := NamesOf(a.addColumns);
    var copyForDropped := AnyNeedsCopy(a.dropConstraints, dropped);
    var copyForAdded := AnyNeedsCopy(a.addConstraints, added);
    return copyForDropped || copyForAdded;
  }

  // ----- the statements -----

  function IndexDrops(xs: seq<Index>): seq<Edit> {
    seq(|xs|, i requires 0 <= i < |xs| => DropIndex(xs[i].name))
  }

  function ColumnDrops(cs: seq<SqlColumn>): seq<Edit> {
    seq(|cs|, i requires 0 <= i < |cs| => DropColumn(cs[i].name))
  }

  function ColumnAdds(cs: seq<SqlColumn>): seq<Edit> {
    seq(|cs|, i requires 0 <= i < |cs| => AddColumn(cs[i]))
  }

  function IndexCreates(xs: seq<Index>): seq<Edit> {
    seq(|xs|, i requires 0 <= i < |xs| => CreateIndex(xs[i]))
  }

  function InPlace(a: AlterTable): seq<Edit> {
    IndexDrops(a.dropIndexes) + ColumnDrops(a.dropColumns) + ColumnAdds(a.addColumns) + IndexCreates(a.createIndexes)
  }

  /** The columns of a table that a list of others has, in the order of the table. */
  function Shared(columns: seq<SqlColumn>, others: set<string>): seq<string> {
    if columns == [] then []
    else
      var c := columns[|columns| - 1].name;
      Shared(columns[..|columns| - 1], others) + (if c in others then [c] else [])
  }

  /** A table is copied into a new one, which then takes its name. */
  function Copy(table: string, a: AlterTable): seq<Statement> {
    var new_ := table + "_new";
    [ CreateTable(new_, a.dest.columns, a.dest.constraints),
      CopyRows(new_, table, Shared(a.src.columns, Names(a.dest.columns))),
      DropTable(table),
      RenameTable(new_, table) ]
    + OnTables(table, IndexCreates(a.dest.indexes))
  }

  function Statements(table: string, a: AlterTable): seq<Statement> {
    if MustCopy(a) then Copy(table, a) else OnTables(table, InPlace(a))
  }

  method WriteInPlace(table: string, a: AlterTable) returns (buf: seq<Statement>)
    ensures buf == OnTables(table, InPlace(a))
  {
    var edits: seq<Edit> := [];
    for i := 0 to |a.dropIndexes|
      invariant edits == IndexDrops(a.dropIndexes[..i])
    {
      edits := edits + [DropIndex(a.dropIndexes[i].name)];
    }
    assert a.dropIndexes[..|a.dropIndexes|] == a.dropIndexes;
    ghost var done := edits;
    for i := 0 to |a.dropColumns|
      invariant edits == done + ColumnDrops(a.dropColumns[..i])
    {
      edits := edits + [DropColumn(a.dropColumns[i].name)];
    }
    assert a.dropColumns[..|a.dropColumns|] == a.dropColumns;
    done := edits;
    for i := 0 to |a.addColumns|
      invariant edits == done + ColumnAdds(a.addColumns[..i])
    {
      edits := edits + [AddColumn(a.addColumns[i])];
    }
    assert a.addColumns[..|a.addColumns|] == a.addColumns;
    done := edits;
    for i := 0 to |a.createIndexes|
      invariant edits == done + IndexCreates(a.createIndexes[..i])
    {
      edits := edits + [CreateIndex(a.createIndexes[i])];
    }
    assert a.createIndexes[..|a.createIndexes|] == a.createIndexes;
    return OnTables(table, edits);
  }

  method WriteCopy(table: string, a: AlterTable) returns (buf: seq<Statement>)
    ensures buf == Copy(table, a)
  {
    var newName := table + "_new";
    buf := [CreateTable(newName, a.dest.columns, a.dest.constraints)];
    var isDestColumn := NamesOf(a.dest.columns);
    var insertColumns: seq<string> := [];
    for k := 0 to |a.src.columns|
      invariant insertColumns == Shared(a.src.columns[..k], isDestColumn)
    {
      assert a.src.columns[..k + 1][..k] == a.src.columns[..k];
      if a.src.columns[k].name !in isDestColumn {
        continue;
      }
      insertColumns := insertColumns + [a.src.columns[k].name];
    }
    assert a.src.columns[..|a.src.columns|] == a.src.columns;
    buf := buf + [CopyRows(newName, table, insertColumns), DropTable(table), RenameTable(newName, table)];
    ghost var first := buf;
    for i := 0 to |a.dest.indexes|
      invariant buf == first + OnTables(table, IndexCreates(a.dest.indexes[..i]))
    {
      buf := buf + [OnTable(table, CreateIndex(a.dest.indexes[i]))];
    }
    assert a.dest.indexes[..|a.dest.indexes|] == a.dest.indexes;
  }

  method Sql(table: string, a: AlterTable) returns (buf: seq<Statement>)
    requires forall c :: c in a.dropConstraints + a.addConstraints && c.def.constraintType == ForeignKey ==>
        c.def.columns != []
    ensures buf == Statements(table, a)
  {
    var copy := CopyTable(a);
    if copy {
      buf := WriteCopy(table, a);
    } else {
      buf := WriteInPlace(table, a);
    }
  }
}
