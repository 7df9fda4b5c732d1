/** Tables that the code would alter in place, where SQLite refuses that, while a copy would work. */
module SqliteWitnesses {
  import opened Common
  import opened Catalogs
  import opened SqliteTables
  import opened SqlitePlan
  import opened SqliteShapes
  import opened SqliteAlter
  import opened SqliteCopy

  /** Foreign keys of a table that was created, or copied, are declared with the table: none of their columns can be
      dropped in place, and no copy is made to drop a foreign key of one column. */
  lemma CreatedTablesKeepKeyColumns(db: Database, table: string, src: SqliteTable, dest: SqliteTable, n: string)
    requires Ready(db, table, src, dest) && db[table].inline == {} && !MustCopy(Diff(src, dest))
    requires n in db[table].constraints && Inline(db[table].constraints[n])
    requires db[table].constraints[n].columns[0] !in Live(dest.columns)
    ensures Execute(db, Statements(table, Diff(src, dest))) == None
  {
    StatementsReachExactly(db, table, src, dest);
  }

  lemma OneLive<T>(x: Object<T>)
    requires !x.ignore
    ensures Live([x]) == map[x.name := x.def] && Plain([x])
  {
    assert [x][..0] == [];
  }

  lemma TwoLive<T>(x: Object<T>, y: Object<T>)
    requires !x.ignore && !y.ignore && x.name != y.name
    ensures Live([x, y]) == map[x.name := x.def, y.name := y.def] && Plain([x, y])
  {
    OneLive(x);
    assert [x, y][..1] == [x];
  }

  lemma NoKeys(table: string, s: Shape, c: string)
    requires forall n :: n in s.constraints ==> s.constraints[n].constraintType == ForeignKey
    ensures !HasKey(table, s, PrimaryKey, c) && !HasKey(table, s, Unique, c)
  {
  }

  const INTEGER := SqliteColumn("INTEGER", "", false, "", false, false, false, None)

  function Made(s: Shape, rows: seq<Record>): State {
    State(s.columns, s.constraints, {}, s.indexes, rows)
  }

  // ----- a column with a foreign key -----

  function KeyColumn(r: Reference): SqliteColumn {
    INTEGER.(references := Some(r))
  }

  /** A table of two columns, the second with a foreign key. */
  function WithKey(table: string, a: string, b: string, r: Reference): SqliteTable {
    SqliteTable([Object(a, false, INTEGER), Object(b, false, KeyColumn(r))],
                [Object(KeyName(table, b), false, InlineConstraint(b, r))], [])
  }

  function OneColumn(a: string): SqliteTable {
    SqliteTable([Object(a, false, INTEGER)], [], [])
  }

  lemma OneColumnShape(a: string)
    ensures ShapeOf(OneColumn(a)) == Shape(map[a := INTEGER], map[], map[]) && PlainTable(OneColumn(a))
  {
    OneLive(Object(a, false, INTEGER));
  }

  lemma WithKeyShape(table: string, a: string, b: string, r: Reference)
    requires a != b
    ensures ShapeOf(WithKey(table, a, b, r))
         == Shape(map[a := INTEGER, b := KeyColumn(r)], map[KeyName(table, b) := InlineConstraint(b, r)], map[])
    ensures PlainTable(WithKey(table, a, b, r))
  {
    TwoLive(Object(a, false, INTEGER), Object(b, false, KeyColumn(r)));
    OneLive(Object(KeyName(table, b), false, InlineConstraint(b, r)));
  }

  lemma OneColumnFits(table: string, a: string, s: Shape)
    requires s == Shape(map[a := INTEGER], map[], map[])
    ensures WellFormed(table, s)
  {
    NoKeys(table, s, a);
  }

  lemma WithKeyFits(table: string, a: string, b: string, r: Reference, n: string, s: Shape)
    requires a != b && n == KeyName(table, b)
    requires s == Shape(map[a := INTEGER, b := KeyColumn(r)], map[n := InlineConstraint(b, r)], map[])
    ensures WellFormed(table, s)
  {
    NoKeys(table, s, a);
    NoKeys(table, s, b);
    assert ConstraintFits(table, s, n) && ColumnFits(table, s, a) && ColumnFits(table, s, b);
  }

  lemma KeyColumnSetting(table: string, a: string, b: string, r: Reference)
    requires a != b
    ensures var src, dest := WithKey(table, a, b, r), OneColumn(a);
            Setting(table, src, dest) && SameRest(ShapeOf(src), ShapeOf(dest)) && NoCopy(ShapeOf(src), ShapeOf(dest))
  {
    var src, dest := WithKey(table, a, b, r), OneColumn(a);
    WithKeyShape(table, a, b, r);
    OneColumnShape(a);
    WithKeyFits(table, a, b, r, KeyName(table, b), ShapeOf(src));
    OneColumnFits(table, a, ShapeOf(dest));
  }

  lemma EmptyFits(s: Shape)
    ensures Fits(Made(s, []), s)
  {
  }

  lemma EmptyCanBeCopied(db: Database, table: string, s: Shape, d: Shape, c: string)
    requires table in db && db[table].rows == [] && table + "_new" !in db && c in s.columns && c in d.columns
    ensures CanCopy(db, table, s, d)
  {
    assert RowsFor(s, d, []) == [];
  }

  /** A table that was created with a foreign key cannot lose the column in place, but it could by a copy. */
  lemma KeyColumnWitness(table: string, a: string, b: string, r: Reference)
    requires a != b
    ensures var src, dest := WithKey(table, a, b, r), OneColumn(a);
            var db := map[table := Made(ShapeOf(src), [])];
            && Execute(map[], [CreateTable(table, src.columns, src.constraints)]) == Some(db)
            && !MustCopy(Diff(src, dest))
            && Execute(db, Statements(table, Diff(src, dest))) == None
            && Execute(db, Copy(table, Diff(src, dest))).Some?
  {
    var src, dest := WithKey(table, a, b, r), OneColumn(a);
    var db: Database := map[table := Made(ShapeOf(src), [])];
    WithKeyShape(table, a, b, r);
    OneColumnShape(a);
    KeyColumnSetting(table, a, b, r);
    ExecuteOne(map[], CreateTable(table, src.columns, src.constraints));
    assert a in Live(src.columns);
    MustCopyExactly(src, dest);
    EmptyFits(ShapeOf(src));
    CreatedTablesKeepKeyColumns(db, table, src, dest, KeyName(table, b));
    assert |table + "_new"| == |table| + 4;
    EmptyCanBeCopied(db, table, ShapeOf(src), ShapeOf(dest), a);
    CopyReachesExactly(db, table, src, dest);
  }

  // ----- a default that is not constant -----

  /** A table of two columns, the second with a default. */
  function WithDefault(a: string, b: string, default: string): SqliteTable {
    SqliteTable([Object(a, false, INTEGER), Object(b, false, INTEGER.(default := default))], [], [])
  }

  lemma DefaultSetting(table: string, a: string, b: string, default: string)
    requires a != b
    ensures var src, dest := OneColumn(a), WithDefault(a, b, default);
            && ShapeOf(dest) == Shape(map[a := INTEGER, b := INTEGER.(default := default)], map[], map[])
            && Setting(table, src, dest) && SameRest(ShapeOf(src), ShapeOf(dest)) && NoCopy(ShapeOf(src), ShapeOf(dest))
  {
    var src, dest := OneColumn(a), WithDefault(a, b, default);
    TwoLive(Object(a, false, INTEGER), Object(b, false, INTEGER.(default := default)));
    OneColumnShape(a);
    OneColumnFits(table, a, ShapeOf(src));
    NoKeys(table, ShapeOf(dest), a);
    NoKeys(table, ShapeOf(dest), b);
  }

  lemma OneRowFits(s: Shape, a: string, value: string)
    requires s == Shape(map[a := INTEGER], map[], map[])
    ensures Fits(Made(s, [map[a := Some(value)]]), s)
  {
  }

  lemma OneRowCanBeCopied(db: Database, table: string, a: string, b: string, s: Shape, d: Shape, value: string)
    requires a != b && table in db && db[table].rows == [map[a := Some(value)]] && table + "_new" !in db
    requires a in s.columns && a in d.columns && d.constraints == map[] && d.indexes == map[]
    requires forall c :: c in d.columns ==> !d.columns[c].isNotNull
    ensures CanCopy(db, table, s, d)
  {
  }

  /** A table with a row cannot get a column with a default in parentheses in place, but it could by a copy. */
  lemma DefaultWitness(table: string, a: string, b: string, expression: string, value: string)
    requires a != b
    ensures var src, dest := OneColumn(a), WithDefault(a, b, "(" + expression + ")");
            var db := map[table := Made(ShapeOf(src), [map[a := Some(value)]])];
            && !MustCopy(Diff(src, dest))
            && Execute(db, Statements(table, Diff(src, dest))) == None
            && Execute(db, Copy(table, Diff(src, dest))).Some?
  {
    var default := "(" + expression + ")";
    var src, dest := OneColumn(a), WithDefault(a, b, default);
    var db: Database := map[table := Made(ShapeOf(src), [map[a := Some(value)]])];
    DefaultSetting(table, a, b, default);
    OneColumnShape(a);
    MustCopyExactly(src, dest);
    OneRowFits(ShapeOf(src), a, value);
    NotConstant(src, dest, db[table], b, default);
    StatementsReachExactly(db, table, src, dest);
    assert |table + "_new"| == |table| + 4;
    OneRowCanBeCopied(db, table, a, b, ShapeOf(src), ShapeOf(dest), value);
    CopyReachesExactly(db, table, src, dest);
  }

  lemma NotConstant(src: SqliteTable, dest: SqliteTable, st: State, b: string, default: string)
    requires st.rows != [] && b in Live(dest.columns) && b !in Live(src.columns)
    requires Live(dest.columns)[b].default == default && default != "" && default[0] == '('
    ensures !CanAlterInPlace(st, ShapeOf(src), ShapeOf(dest))
  {
    assert !FitsRows(ShapeOf(dest).columns[b]);
  }
}
