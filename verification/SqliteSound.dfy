/** What SQLite itself keeps, whatever statements are run: rows fit their table, keys and indexes name its columns, and
    what is unique stays unique. */
module SqliteSound {
  import opened Common
  import opened Catalogs
  import opened SqliteTables
  import opened SqlitePlan
  import opened SqliteCopy

  /** No two rows have the same values in all of the columns, unless one of the values is null. */
  ghost predicate NoTwo(rows: seq<Record>, columns: seq<string>) {
    forall i, k :: 0 <= i < k < |rows| ==> Apart(rows[i], rows[k], columns)
  }

  ghost predicate Apart(r: Record, s: Record, columns: seq<string>) {
    exists c :: c in columns && (c !in r || r[c] == None || c !in s || r[c] != s[c])
  }

  ghost predicate NamesColumns(columns: map<string, SqliteColumn>, names: seq<string>) {
    forall c :: c in names ==> c in columns
  }

  /** Rows have a value or a null for each column, and no null where none may be. */
  ghost predicate RowsFit(st: State) {
    forall i :: 0 <= i < |st.rows| ==> RowFits(st.columns, st.rows[i])
  }

  ghost predicate RowFits(columns: map<string, SqliteColumn>, r: Record) {
    r.Keys == columns.Keys && forall c :: c in columns && columns[c].isNotNull ==> r[c].Some?
  }

  ghost predicate ConstraintsFit(st: State) {
    forall n :: n in st.constraints ==> ConstraintFits(st, st.constraints[n])
  }

  ghost predicate ConstraintFits(st: State, c: ConstraintDef) {
    && NamesColumns(st.columns, c.columns)
    && (c.constraintType == PrimaryKey || c.constraintType == Unique ==> NoTwo(st.rows, c.columns))
  }

  ghost predicate IndexesFit(st: State) {
    forall n :: n in st.indexes ==>
      && NamesColumns(st.columns, st.indexes[n].columns)
      && (st.indexes[n].isUnique ==> NoTwo(st.rows, st.indexes[n].columns))
  }

  ghost predicate Sound(st: State) {
    RowsFit(st) && ConstraintsFit(st) && IndexesFit(st)
  }

  lemma DuplicatesExactly(rows: seq<Record>, columns: seq<string>)
    ensures HasDuplicates(rows, columns) <==> !NoTwo(rows, columns)
  {
    forall i, k | 0 <= i < k < |rows|
      ensures SameValues(rows[i], rows[k], columns) <==> !Apart(rows[i], rows[k], columns)
    {
    }
  }

  /** Values in other columns do not matter. */
  lemma StillNoTwo(rows: seq<Record>, after: seq<Record>, columns: seq<string>)
    requires NoTwo(rows, columns) && |after| == |rows|
    requires forall i, c :: 0 <= i < |rows| && c in columns ==>
               (c in after[i] <==> c in rows[i]) && (c in rows[i] ==> after[i][c] == rows[i][c])
    ensures NoTwo(after, columns)
  {
    forall i, k | 0 <= i < k < |after| ensures Apart(after[i], after[k], columns) {
      assert Apart(rows[i], rows[k], columns);
    }
  }

  lemma DropKeeps(st: State, c: string)
    requires Sound(st) && !Held(st, c)
    ensures Sound(Without(st, {c}))
  {
    var after := Without(st, {c});
    forall n | n in after.constraints ensures ConstraintFits(after, after.constraints[n]) {
      assert ConstraintFits(st, st.constraints[n]);
      assert c !in st.constraints[n].columns;
      if NoTwo(st.rows, st.constraints[n].columns) {
        StillNoTwo(st.rows, after.rows, st.constraints[n].columns);
      }
    }
    forall n | n in after.indexes
      ensures NamesColumns(after.columns, after.indexes[n].columns)
      ensures after.indexes[n].isUnique ==> NoTwo(after.rows, after.indexes[n].columns)
    {
      assert c !in st.indexes[n].columns;
      if NoTwo(st.rows, st.indexes[n].columns) {
        StillNoTwo(st.rows, after.rows, st.indexes[n].columns);
      }
    }
    forall i | 0 <= i < |after.rows| ensures RowFits(after.columns, after.rows[i]) {
      assert RowFits(st.columns, st.rows[i]);
    }
  }

  lemma AddKeeps(table: string, st: State, c: SqlColumn)
    requires Sound(st) && Addable(table, st, c)
    ensures Sound(With(table, st, c))
  {
    var after := With(table, st, c);
    forall n | n in after.constraints ensures ConstraintFits(after, after.constraints[n]) {
      if n in st.constraints && after.constraints[n] == st.constraints[n] {
        assert ConstraintFits(st, st.constraints[n]);
        if NoTwo(st.rows, st.constraints[n].columns) {
          StillNoTwo(st.rows, after.rows, st.constraints[n].columns);
        }
      }
    }
    forall n | n in after.indexes
      ensures NamesColumns(after.columns, after.indexes[n].columns)
      ensures after.indexes[n].isUnique ==> NoTwo(after.rows, after.indexes[n].columns)
    {
      if NoTwo(st.rows, st.indexes[n].columns) {
        StillNoTwo(st.rows, after.rows, st.indexes[n].columns);
      }
    }
    forall i | 0 <= i < |after.rows| ensures RowFits(after.columns, after.rows[i]) {
      assert RowFits(st.columns, st.rows[i]);
    }
  }

  /** A statement in place keeps the table sound. */
  lemma EditKeeps(table: string, st: State, e: Edit)
    requires Sound(st) && ApplyEdit(table, st, e).Some?
    ensures Sound(ApplyEdit(table, st, e).value)
  {
    match e
    case DropIndex(_) =>
    case DropColumn(c) => DropKeeps(st, c);
    case AddColumn(c) => AddKeeps(table, st, c);
    case CreateIndex(x) => DuplicatesExactly(st.rows, x.def.columns);
  }

  /** The constraints that a table is created with name its columns. */
  ghost predicate WellNamed(s: Statement) {
    s.CreateTable? ==>
      forall n :: n in Live(s.constraints) ==> NamesColumns(Live(s.columns), Live(s.constraints)[n].columns)
  }

  ghost predicate AllSound(db: Database) {
    forall t :: t in db ==> Sound(db[t])
  }

  /** Rows are copied into tables without indexes. */
  ghost predicate Unindexed(db: Database, s: Statement) {
    s.CopyRows? && s.into in db ==> db[s.into].indexes == map[]
  }

  lemma CopyKeeps(db: Database, into: string, from: string, shared: seq<string>)
    requires AllSound(db) && Apply(db, CopyRows(into, from, shared)).Some? && db[into].indexes == map[]
    ensures Sound(Apply(db, CopyRows(into, from, shared)).value[into])
  {
    var st := db[into];
    var rows := AllProjected(st.columns, shared, db[from].rows);
    var after := st.(rows := st.rows + rows);
    assert Sound(st);
    forall i | 0 <= i < |after.rows| ensures RowFits(after.columns, after.rows[i]) {
      if i < |st.rows| {
        assert RowFits(st.columns, st.rows[i]);
      } else {
        assert after.rows[i] == rows[i - |st.rows|];
      }
    }
    forall n | n in after.constraints ensures ConstraintFits(after, after.constraints[n]) {
      assert ConstraintFits(st, st.constraints[n]);
      DuplicatesExactly(after.rows, after.constraints[n].columns);
    }
  }

  lemma StatementKeeps(db: Database, s: Statement)
    requires AllSound(db) && WellNamed(s) && Unindexed(db, s) && Apply(db, s).Some?
    ensures AllSound(Apply(db, s).value)
  {
    match s
    case OnTable(t, e) => EditKeeps(t, db[t], e);
    case CreateTable(t, columns, constraints) =>
    case CopyRows(into, from, shared) => CopyKeeps(db, into, from, shared);
    case DropTable(_) =>
    case RenameTable(_, _) =>
  }

  // ----- a migration -----

  lemma {:induction false} ExecuteKeeps(db: Database, ss: seq<Statement>)
    requires AllSound(db) && Execute(db, ss).Some?
    requires forall s :: s in ss ==> WellNamed(s) && !s.CopyRows?
    ensures AllSound(Execute(db, ss).value)
  {
    if ss == [] {
    } else {
      var init, last := ss[..|ss| - 1], ss[|ss| - 1];
      assert ss == init + [last];
      ExecuteKeeps(db, init);
      StatementKeeps(Execute(db, init).value, last);
    }
  }

  lemma TwoStatements(db: Database, a: Statement, b: Statement)
    ensures Execute(db, [a, b]) == match Apply(db, a) case None => None case Some(mid) => Apply(mid, b)
  {
    assert [a] + [b] == [a, b];
    ExecuteConcat(db, [a], [b]);
    ExecuteOne(db, a);
    match Apply(db, a)
    case None =>
    case Some(mid) => ExecuteOne(mid, b);
  }

  /** A new table, and the rows that go into it. */
  lemma MadeKeeps(db: Database, create: Statement, copy: Statement)
    requires AllSound(db) && create.CreateTable? && WellNamed(create) && copy.CopyRows? && copy.into == create.table
    requires Execute(db, [create, copy]).Some?
    ensures AllSound(Execute(db, [create, copy]).value)
  {
    TwoStatements(db, create, copy);
    var mid := Apply(db, create).value;
    StatementKeeps(db, create);
    StatementKeeps(mid, copy);
  }

  lemma ReplacedKeeps(db: Database, table: string, dest: SqliteTable, copy: Statement)
    requires forall n :: n in Live(dest.constraints) ==>
               NamesColumns(Live(dest.columns), Live(dest.constraints)[n].columns)
    requires AllSound(db) && copy.CopyRows? && copy.into == table + "_new"
    ensures var after := Execute(db, [CreateTable(table + "_new", dest.columns, dest.constraints), copy]
          + ([DropTable(table), RenameTable(table + "_new", table)] + OnTables(table, IndexCreates(dest.indexes))));
      after.Some? ==> AllSound(after.value)
  {
    var create := CreateTable(table + "_new", dest.columns, dest.constraints);
    var rest := [DropTable(table), RenameTable(table + "_new", table)] + OnTables(table, IndexCreates(dest.indexes));
    ExecuteConcat(db, [create, copy], rest);
    if Execute(db, [create, copy] + rest).Some? {
      MadeKeeps(db, create, copy);
      ExecuteKeeps(Execute(db, [create, copy]).value, rest);
    }
  }

  /** Whatever the migration does to a table, by copy or in place, the database stays sound if it goes through. */
  lemma MigrationKeeps(db: Database, table: string, src: SqliteTable, dest: SqliteTable)
    requires AllSound(db) && Execute(db, Statements(table, Diff(src, dest))).Some?
    requires forall n :: n in Live(dest.constraints) ==>
               NamesColumns(Live(dest.columns), Live(dest.constraints)[n].columns)
    ensures AllSound(Execute(db, Statements(table, Diff(src, dest))).value)
  {
    var a := Diff(src, dest);
    if MustCopy(a) {
      var copy := CopyRows(table + "_new", table, Shared(src.columns, Names(dest.columns)));
      assert Copy(table, a) == [CreateTable(table + "_new", dest.columns, dest.constraints), copy]
          + ([DropTable(table), RenameTable(table + "_new", table)] + OnTables(table, IndexCreates(dest.indexes)));
      ReplacedKeeps(db, table, dest, copy);
    } else {
      ExecuteKeeps(db, OnTables(table, InPlace(a)));
    }
  }
}
