/** A SQLite table that is copied, and the choice between that and the statements in place. */
module SqliteCopy {
  import opened Common
  import opened Catalogs
  import opened SqliteTables
  import opened SqlitePlan
  import opened SqliteShapes
  import opened SqliteInPlace
  import opened SqliteAlter

  // ----- the copy -----

  lemma {:induction false} SharedExactly(columns: seq<SqlColumn>, others: set<string>, c: string)
    ensures c in Shared(columns, others) <==> c in Names(columns) && c in others
  {
    if columns == [] {
    } else {
      SharedExactly(columns[..|columns| - 1], others, c);
    }
  }

  lemma SharedColumns(src: SqliteTable, dest: SqliteTable)
    requires PlainTable(src) && PlainTable(dest)
    ensures var shared := Shared(src.columns, Names(dest.columns));
            && (forall c :: c in shared <==> c in Live(src.columns) && c in Live(dest.columns))
            && (shared == [] <==> !SomeStays(ShapeOf(src), ShapeOf(dest)))
            && forall rows ::
               AllProjected(Live(dest.columns), shared, rows) == RowsFor(ShapeOf(src), ShapeOf(dest), rows)
  {
    var shared := Shared(src.columns, Names(dest.columns));
    NamesOfLive(src.columns);
    NamesOfLive(dest.columns);
    forall c ensures c in shared <==> c in Live(src.columns) && c in Live(dest.columns) {
      SharedExactly(src.columns, Names(dest.columns), c);
    }
    if shared != [] {
      assert shared[0] in shared;
    }
    forall rows ensures AllProjected(Live(dest.columns), shared, rows) == RowsFor(ShapeOf(src), ShapeOf(dest), rows) {
      forall i | 0 <= i < |rows|
          ensures Projected(Live(dest.columns), shared, rows[i]) == RowFor(ShapeOf(src), ShapeOf(dest), rows[i]) {
      }
    }
  }

  lemma ExecuteOne(db: Database, s: Statement)
    ensures Execute(db, [s]) == Apply(db, s)
  {
    assert [s][..0] == [];
  }

  /** A new table is made and gets the rows. */
  lemma CopyMade(db: Database, table: string, src: SqliteTable, dest: SqliteTable)
    requires PlainTable(src) && PlainTable(dest) && dest.columns != []
    requires table in db && Fits(db[table], ShapeOf(src)) && table + "_new" !in db
    requires SomeStays(ShapeOf(src), ShapeOf(dest))
    ensures var s, d, name := ShapeOf(src), ShapeOf(dest), table + "_new";
            var rows := RowsFor(s, d, db[table].rows);
            var made := Execute(db,
                [CreateTable(name, dest.columns, dest.constraints),
                 CopyRows(name, table, Shared(src.columns, Names(dest.columns)))]);
            made == if Allows(d.columns, rows) && KeysHold(d.constraints, rows)
                    then Some(db[name := State(d.columns, d.constraints, {}, map[], rows)]) else None
  {
    var s, d, name := ShapeOf(src), ShapeOf(dest), table + "_new";
    var shared := Shared(src.columns, Names(dest.columns));
    var create, copy := CreateTable(name, dest.columns, dest.constraints), CopyRows(name, table, shared);
    var empty := State(d.columns, d.constraints, {}, map[], []);
    SharedColumns(src, dest);
    ColumnsNotNone(dest.columns);
    ExecuteConcat(db, [create], [copy]);
    ExecuteOne(db, create);
    ExecuteOne(db[name := empty], copy);
    assert [create] + [copy] == [create, copy];
    assert table != name by {
      assert |name| == |table| + 4;
    }
    var rows := RowsFor(s, d, db[table].rows);
    assert [] + rows == rows;
    assert db[name := empty][name := empty.(rows := rows)] == db[name := empty.(rows := rows)];
  }

  lemma ColumnsNotNone(columns: seq<SqlColumn>)
    requires Plain(columns) && columns != []
    ensures Live(columns) != map[]
  {
    assert columns[|columns| - 1].name in Live(columns);
  }

  /** The new table takes the place of the other. */
  lemma CopySwapped(db: Database, table: string, name: string, st: State)
    requires table in db && name !in db
    ensures Execute(db[name := st], [DropTable(table), RenameTable(name, table)]) == Some(db[table := st])
  {
    var two := db[name := st];
    ExecuteConcat(two, [DropTable(table)], [RenameTable(name, table)]);
    ExecuteOne(two, DropTable(table));
    ExecuteOne(two - {table}, RenameTable(name, table));
    assert [DropTable(table)] + [RenameTable(name, table)] == [DropTable(table), RenameTable(name, table)];
    assert ((two - {table}) - {name})[table := st] == db[table := st];
  }

  /** What a caller can check before a table is copied: the new name is free, some column stays, and the rows there will
      be have no null where none may be and no key twice. */
  ghost predicate CanCopy(db: Database, table: string, s: Shape, d: Shape)
    requires table in db
  {
    var rows := RowsFor(s, d, db[table].rows);
    && table + "_new" !in db && SomeStays(s, d)
    && Allows(d.columns, rows) && KeysHold(d.constraints, rows) && IndexesHold(d.indexes, rows)
  }

  /** A copy goes through exactly if it can be made; then the table is the one that is wanted, with its foreign keys
      declared with the table, and nothing else is changed. */
  lemma CopyReachesExactly(db: Database, table: string, src: SqliteTable, dest: SqliteTable)
    requires PlainTable(src) && PlainTable(dest) && dest.columns != [] && WellFormed(table, ShapeOf(dest))
    requires table in db && Fits(db[table], ShapeOf(src))
    ensures var s, d := ShapeOf(src), ShapeOf(dest);
            Execute(db, Copy(table, Diff(src, dest)))
            == if CanCopy(db, table, s, d) then Some(db[table := Goal(s, d, {}, db[table].rows)]) else None
  {
    var s, d, name := ShapeOf(src), ShapeOf(dest), table + "_new";
    var make := [CreateTable(name, dest.columns, dest.constraints),
                 CopyRows(name, table, Shared(src.columns, Names(dest.columns)))];
    var swap := [DropTable(table), RenameTable(name, table)];
    var indexes := OnTables(table, IndexCreates(dest.indexes));
    assert Copy(table, Diff(src, dest)) == make + swap + indexes;
    ExecuteConcat(db, make, swap);
    ExecuteConcat(db, make + swap, indexes);
    if name in db || !SomeStays(s, d) {
      MakeFails(db, table, src, dest);
    } else {
      CopyMade(db, table, src, dest);
      var st := State(d.columns, d.constraints, {}, map[], RowsFor(s, d, db[table].rows));
      CopySwapped(db, table, name, st);
      IndexesMade(db, table, dest, st);
    }
  }

  lemma MakeFails(db: Database, table: string, src: SqliteTable, dest: SqliteTable)
    requires PlainTable(src) && PlainTable(dest) && dest.columns != []
    requires table + "_new" in db || !SomeStays(ShapeOf(src), ShapeOf(dest))
    ensures var name := table + "_new";
            Execute(db, [CreateTable(name, dest.columns, dest.constraints),
                         CopyRows(name, table, Shared(src.columns, Names(dest.columns)))]) == None
  {
    var name, shared := table + "_new", Shared(src.columns, Names(dest.columns));
    var create, copy := CreateTable(name, dest.columns, dest.constraints), CopyRows(name, table, shared);
    SharedColumns(src, dest);
    ExecuteConcat(db, [create], [copy]);
    ExecuteOne(db, create);
    assert [create] + [copy] == [create, copy];
    match Apply(db, create)
    case None =>
    case Some(mid) => ExecuteOne(mid, copy);
  }

  lemma IndexesMade(db: Database, table: string, dest: SqliteTable, st: State)
    requires table in db && PlainTable(dest) && WellFormed(table, ShapeOf(dest))
    requires st.columns == Live(dest.columns) && st.indexes == map[]
    ensures Execute(db[table := st], OnTables(table, IndexCreates(dest.indexes)))
         == if IndexesHold(Live(dest.indexes), st.rows) then Some(db[table := st.(indexes := Live(dest.indexes))])
             else None
  {
    AllIndexes(table, dest, st);
    EditsInDatabase(db[table := st], table, IndexCreates(dest.indexes));
    assert db[table := st][table := st.(indexes := Live(dest.indexes))]
        == db[table := st.(indexes := Live(dest.indexes))];
  }

  lemma AllIndexes(table: string, dest: SqliteTable, st: State)
    requires Plain(dest.indexes) && WellFormed(table, ShapeOf(dest)) && st.columns == Live(dest.columns)
    requires st.indexes == map[]
    ensures ApplyEdits(table, st, IndexCreates(dest.indexes))
         == if IndexesHold(Live(dest.indexes), st.rows) then Some(st.(indexes := Live(dest.indexes))) else None
  {
    LiveOf(dest.indexes);
    if IndexesHold(Live(dest.indexes), st.rows) {
      HeldIndexesRun(table, dest, st);
    } else {
      var n :| n in Live(dest.indexes) && Live(dest.indexes)[n].isUnique
          && HasDuplicates(st.rows, Live(dest.indexes)[n].columns);
      RefusedCreate(table, st, dest.indexes, Object(n, false, Live(dest.indexes)[n]));
    }
  }

  lemma HeldIndexesRun(table: string, dest: SqliteTable, st: State)
    requires Plain(dest.indexes) && WellFormed(table, ShapeOf(dest)) && st.columns == Live(dest.columns)
    requires st.indexes == map[] && IndexesHold(Live(dest.indexes), st.rows)
    ensures ApplyEdits(table, st, IndexCreates(dest.indexes)) == Some(st.(indexes := Live(dest.indexes)))
  {
    LiveOf(dest.indexes);
    forall x | x in dest.indexes
      ensures forall c :: c in x.def.columns ==> c in st.columns
      ensures x.def.isUnique ==> !HasDuplicates(st.rows, x.def.columns)
    {
      assert ShapeOf(dest).indexes[x.name] == x.def;
    }
    IndexCreatesRun(table, st, dest.indexes);
    assert map[] + Live(dest.indexes) == Live(dest.indexes);
  }

  // ----- both -----

  lemma RowsAllowed(table: string, src: SqliteTable, dest: SqliteTable, st: State)
    requires Setting(table, src, dest) && NoCopy(ShapeOf(src), ShapeOf(dest)) && Fits(st, ShapeOf(src))
    requires AddsFit(ShapeOf(src), ShapeOf(dest), st.rows)
    ensures Allows(Live(dest.columns), RowsFor(ShapeOf(src), ShapeOf(dest), st.rows))
  {
    var s, d := ShapeOf(src), ShapeOf(dest);
    forall i, c | 0 <= i < |st.rows| && c in d.columns && d.columns[c].isNotNull
      ensures Get(RowsFor(s, d, st.rows)[i], c).Some?
    {
      if c in s.columns {
        assert !Different(s.columns[c], d.columns[c]);
      }
    }
  }

  /** On columns that stay, rows are duplicates if they were. */
  lemma SameDuplicates(s: Shape, d: Shape, rows: seq<Record>, columns: seq<string>)
    requires forall c :: c in columns ==> c in s.columns && c in d.columns
    ensures HasDuplicates(RowsFor(s, d, rows), columns) == HasDuplicates(rows, columns)
  {
    var after := RowsFor(s, d, rows);
    forall i, k | 0 <= i < k < |rows|
        ensures SameValues(after[i], after[k], columns) == SameValues(rows[i], rows[k], columns) {
      assert forall c :: c in columns ==> Get(after[i], c) == Get(rows[i], c) && Get(after[k], c) == Get(rows[k], c);
    }
    if i, k :| 0 <= i < k < |rows| && SameValues(rows[i], rows[k], columns) {
      assert SameValues(after[i], after[k], columns);
    }
  }

  lemma KeysStillHold(table: string, src: SqliteTable, dest: SqliteTable, st: State)
    requires Setting(table, src, dest) && NoCopy(ShapeOf(src), ShapeOf(dest)) && Fits(st, ShapeOf(src))
    ensures KeysHold(Live(dest.constraints), RowsFor(ShapeOf(src), ShapeOf(dest), st.rows))
    ensures NewIndexesHold(ShapeOf(src), ShapeOf(dest), st.rows)
       <==> IndexesHold(Live(dest.indexes), RowsFor(ShapeOf(src), ShapeOf(dest), st.rows))
  {
    var s, d := ShapeOf(src), ShapeOf(dest);
    forall n | n in d.constraints && IsUnique(d.constraints[n])
      ensures !HasDuplicates(RowsFor(s, d, st.rows), d.constraints[n].columns)
    {
      assert n in s.constraints;
      assert ConstraintFits(table, s, n) && ConstraintFits(table, d, n);
      SameDuplicates(s, d, st.rows, d.constraints[n].columns);
    }
    forall n | n in d.indexes && n in s.indexes && d.indexes[n].isUnique
      ensures !HasDuplicates(RowsFor(s, d, st.rows), d.indexes[n].columns)
    {
      SameDuplicates(s, d, st.rows, d.indexes[n].columns);
    }
  }

  /** Where the table is altered in place and that works, a copy would come to the same table; but its foreign keys
      are all declared with the table then. */
  lemma PathsAgree(db: Database, table: string, src: SqliteTable, dest: SqliteTable)
    requires Setting(table, src, dest) && src.columns != [] && dest.columns != []
    requires table in db && Fits(db[table], ShapeOf(src)) && table + "_new" !in db && !MustCopy(Diff(src, dest))
    requires CanAlterInPlace(db[table], ShapeOf(src), ShapeOf(dest)) && SameRest(ShapeOf(src), ShapeOf(dest))
    ensures var s, d, st := ShapeOf(src), ShapeOf(dest), db[table];
            && Execute(db, Statements(table, Diff(src, dest)))
               == Some(db[table := Goal(s, d, InlineAfter(s, d, st.inline), st.rows)])
            && Execute(db, Copy(table, Diff(src, dest))) == Some(db[table := Goal(s, d, {}, st.rows)])
  {
    MustCopyExactly(src, dest);
    InPlaceRuns(table, src, dest, db[table]);
    EditsInDatabase(db, table, InPlace(Diff(src, dest)));
    RowsAllowed(table, src, dest, db[table]);
    KeysStillHold(table, src, dest, db[table]);
    CopyReachesExactly(db, table, src, dest);
  }

  // ----- the statements that are chosen -----

  /** What the chosen statements need. */
  ghost predicate CanAlter(db: Database, table: string, src: SqliteTable, dest: SqliteTable)
    requires table in db
  {
    var s, d := ShapeOf(src), ShapeOf(dest);
    if MustCopy(Diff(src, dest)) then CanCopy(db, table, s, d) else CanAlterInPlace(db[table], s, d)
  }

  /** The table that the chosen statements leave. */
  ghost function Altered(st: State, src: SqliteTable, dest: SqliteTable): State {
    var s, d := ShapeOf(src), ShapeOf(dest);
    Goal(s, d, if MustCopy(Diff(src, dest)) then {} else InlineAfter(s, d, st.inline), st.rows)
  }

  /** The statements that are chosen go through exactly if they can; and then they reach the table that is wanted. */
  lemma StatementsReachExactly(db: Database, table: string, src: SqliteTable, dest: SqliteTable)
    requires Ready(db, table, src, dest)
    ensures Execute(db, Statements(table, Diff(src, dest)))
         == if CanAlter(db, table, src, dest) then Some(db[table := Altered(db[table], src, dest)]) else None
  {
    var s, d := ShapeOf(src), ShapeOf(dest);
    MustCopyExactly(src, dest);
    if MustCopy(Diff(src, dest)) {
      CopyReachesExactly(db, table, src, dest);
    } else {
      EditsInDatabase(db, table, InPlace(Diff(src, dest)));
      if SomeStays(s, d) && AddsFit(s, d, db[table].rows) && DropsFree(db[table], d) {
        InPlaceRuns(table, src, dest, db[table]);
      } else {
        InPlaceFails(table, src, dest, db[table]);
      }
    }
  }

  /** What is asked of a database before its table is altered. */
  ghost predicate Ready(db: Database, table: string, src: SqliteTable, dest: SqliteTable) {
    && Setting(table, src, dest) && src.columns != [] && dest.columns != [] && SameRest(ShapeOf(src), ShapeOf(dest))
    && table in db && Fits(db[table], ShapeOf(src))
  }

  /** A table is compared and altered: on every database that is ready, the statements do it exactly if they can. */
  method Migrate(table: string, src: SqliteTable, dest: SqliteTable) returns (buf: seq<Statement>)
    requires forall c :: c in src.constraints + dest.constraints && c.def.constraintType == ForeignKey ==>
               c.def.columns != []
    ensures forall db: Database :: Ready(db, table, src, dest) ==>
              Execute(db, buf)
              == if CanAlter(db, table, src, dest) then Some(db[table := Altered(db[table], src, dest)]) else None
  {
    var a := Compare(src, dest);
    MissingAreThere(src.constraints, dest.constraints);
    MissingAreThere(dest.constraints, src.constraints);
    buf := Sql(table, a);
    forall db: Database | Ready(db, table, src, dest)
      ensures Execute(db, buf)
           == if CanAlter(db, table, src, dest) then Some(db[table := Altered(db[table], src, dest)]) else None
    {
      StatementsReachExactly(db, table, src, dest);
    }
  }

  lemma {:induction false} MissingAreThere<T>(xs: seq<Object<T>>, others: seq<Object<T>>)
    ensures forall x :: x in Missing(xs, others) ==> x in xs
  {
    if xs == [] {
    } else {
      MissingAreThere(xs[..|xs| - 1], others);
    }
  }

  // ----- without drops -----

  predicate Unaddable(st: State, c: SqlColumn) {
    c.def.isPrimaryKey || c.def.isUnique || (st.rows != [] && !FitsRows(c.def))
  }

  /** Everything of a table is in another, with the values of its rows. */
  ghost predicate Keeps(before: State, after: State) {
    && (forall c :: c in before.columns ==> c in after.columns && after.columns[c] == before.columns[c])
    && (forall n :: n in before.constraints ==> n in after.constraints && after.constraints[n] == before.constraints[n])
    && (forall n :: n in before.indexes ==> n in after.indexes && after.indexes[n] == before.indexes[n])
    && |after.rows| == |before.rows|
    && forall i, c :: 0 <= i < |before.rows| && c in before.columns ==> Get(after.rows[i], c) == Get(before.rows[i], c)
  }

  predicate OnlyAdds(es: seq<Edit>) {
    forall i :: 0 <= i < |es| ==> es[i].AddColumn? || es[i].CreateIndex?
  }

  lemma {:induction false} AddsKeep(table: string, st: State, es: seq<Edit>)
    requires OnlyAdds(es) && ApplyEdits(table, st, es).Some?
    ensures Keeps(st, ApplyEdits(table, st, es).value)
  {
    if es == [] {
    } else {
      var init, last := es[..|es| - 1], es[|es| - 1];
      AddsKeep(table, st, init);
      AddKeeps(table, ApplyEdits(table, st, init).value, last);
    }
  }

  lemma AddKeeps(table: string, st: State, e: Edit)
    requires OnlyAdds([e]) && ApplyEdit(table, st, e).Some?
    ensures Keeps(st, ApplyEdit(table, st, e).value)
  {
    assert [e][0] == e;
  }

  /** Without permission to drop objects, a table is altered in place, and nothing is lost if that goes through; it does
      not if a column comes that is a key or unique, since there is no copy then, or that rows have no value for. */
  lemma WithoutDropsKeeps(table: string, src: SqliteTable, dest: SqliteTable, st: State)
    requires PlainTable(src) && PlainTable(dest) && Planned(Diff(src, dest), false).Some?
    ensures var a := Planned(Diff(src, dest), false).value;
            && !MustCopy(a)
            && (ApplyEdits(table, st, InPlace(a)).Some? ==> Keeps(st, ApplyEdits(table, st, InPlace(a)).value))
            && ((exists c :: c in a.addColumns && Unaddable(st, c)) ==> ApplyEdits(table, st, InPlace(a)) == None)
  {
    var a := Planned(Diff(src, dest), false).value;
    var adds, creates := ColumnAdds(a.addColumns), IndexCreates(a.createIndexes);
    assert InPlace(a) == adds + creates;
    EditsConcat(table, st, adds, creates);
    if ApplyEdits(table, st, InPlace(a)).Some? {
      AddsKeep(table, st, InPlace(a));
    }
    if c :| c in a.addColumns && Unaddable(st, c) {
      RefusedAdd(table, st, a.addColumns, c);
    }
  }

  /** The table has some more columns, with the values that they say and their foreign keys, and is else the same. */
  ghost predicate Widened(table: string, before: State, columns: map<string, SqliteColumn>, after: State) {
    && after.columns == before.columns + columns && after.indexes == before.indexes
    && |after.rows| == |before.rows| && Filled(columns, after.rows) && KeysThere(table, columns, after.constraints)
  }

  ghost predicate Filled(columns: map<string, SqliteColumn>, rows: seq<Record>) {
    forall i, c :: 0 <= i < |rows| && c in columns ==> Get(rows[i], c) == Default(columns[c])
  }

  ghost predicate KeysThere(table: string, columns: map<string, SqliteColumn>, cs: map<string, ConstraintDef>) {
    forall c :: c in columns && columns[c].references.Some? ==>
      && KeyName(table, c) in cs && cs[KeyName(table, c)] == InlineConstraint(c, columns[c].references.value)
  }

  lemma MoreFilled(columns: map<string, SqliteColumn>, rows: seq<Record>, c: SqlColumn)
    requires Filled(columns, rows)
    ensures Filled(columns[c.name := c.def], RowsWith(rows, c.name, Default(c.def)))
  {
  }

  lemma MoreKeys(table: string, columns: map<string, SqliteColumn>, cs: map<string, ConstraintDef>, c: SqlColumn)
    requires KeysThere(table, columns, cs) && (c.def.references.Some? ==> KeyName(table, c.name) !in cs)
    ensures KeysThere(table, columns[c.name := c.def], ConstraintsWith(table, cs, c))
  {
    var more := columns[c.name := c.def];
    forall x | x in more && more[x].references.Some?
      ensures KeyName(table, x) in ConstraintsWith(table, cs, c)
      ensures ConstraintsWith(table, cs, c)[KeyName(table, x)] == InlineConstraint(x, more[x].references.value)
    {
      if x != c.name {
        assert KeyName(table, x) in cs;
      }
    }
  }

  lemma WidenedMore(table: string, st: State, columns: map<string, SqliteColumn>, mid: State, c: SqlColumn)
    requires Widened(table, st, columns, mid) && Addable(table, mid, c)
    ensures Widened(table, st, columns[c.name := c.def], With(table, mid, c))
  {
    MoreFilled(columns, mid.rows, c);
    MoreKeys(table, columns, mid.constraints, c);
    assert (st.columns + columns)[c.name := c.def] == st.columns + columns[c.name := c.def];
  }

  lemma {:induction false} ColumnAddsWiden(table: string, st: State, cs: seq<SqlColumn>)
    requires Plain(cs) && ApplyEdits(table, st, ColumnAdds(cs)).Some?
    ensures Widened(table, st, Live(cs), ApplyEdits(table, st, ColumnAdds(cs)).value)
  {
    if cs == [] {
      assert st.columns + map[] == st.columns;
    } else {
      var init := cs[..|cs| - 1];
      WithLast(map[], cs);
      assert map[] + Live(init) == Live(init) && map[] + Live(cs) == Live(cs);
      assert ColumnAdds(cs)[..|cs| - 1] == ColumnAdds(init);
      ColumnAddsWiden(table, st, init);
      WidenedMore(table, st, Live(init), ApplyEdits(table, st, ColumnAdds(init)).value, cs[|cs| - 1]);
    }
  }

  lemma {:induction false} IndexCreatesWiden(table: string, st: State, xs: seq<Index>)
    requires Plain(xs) && ApplyEdits(table, st, IndexCreates(xs)).Some?
    ensures ApplyEdits(table, st, IndexCreates(xs)) == Some(st.(indexes := st.indexes + Live(xs)))
  {
    if xs == [] {
      assert st.indexes + map[] == st.indexes;
    } else {
      WithLast(st.indexes, xs);
      assert IndexCreates(xs)[..|xs| - 1] == IndexCreates(xs[..|xs| - 1]);
      IndexCreatesWiden(table, st, xs[..|xs| - 1]);
    }
  }

  lemma AddsWiden(table: string, st: State, columns: seq<SqlColumn>, indexes: seq<Index>)
    requires Plain(columns) && Plain(indexes)
    ensures var after := ApplyEdits(table, st, ColumnAdds(columns) + IndexCreates(indexes));
      after.Some? ==>
        && Widened(table, st, Live(columns), after.value.(indexes := st.indexes))
        && after.value.indexes == st.indexes + Live(indexes)
  {
    EditsConcat(table, st, ColumnAdds(columns), IndexCreates(indexes));
    if ApplyEdits(table, st, ColumnAdds(columns) + IndexCreates(indexes)).Some? {
      ColumnAddsWiden(table, st, columns);
      IndexCreatesWiden(table, ApplyEdits(table, st, ColumnAdds(columns)).value, indexes);
    }
  }

  /** With permission to drop objects, a table is altered exactly if a constraint or an index is to come or to go, or a
      column is to come or is another; columns that are to go do not count. Without, exactly if it lacks a column or an
      index. */
  lemma PlannedExactly(src: SqliteTable, dest: SqliteTable)
    requires PlainTable(src) && PlainTable(dest)
    ensures Planned(Diff(src, dest), true).Some?
       <==> || Live(src.constraints).Keys != Live(dest.constraints).Keys
            || Live(src.indexes).Keys != Live(dest.indexes).Keys
            || (exists c :: c in Live(dest.columns) && c !in Live(src.columns))
            || (exists c ::
               c in Live(src.columns) && c in Live(dest.columns)
               && Different(Live(src.columns)[c], Live(dest.columns)[c]))
    ensures Planned(Diff(src, dest), false).Some?
       <==> || (exists c :: c in Live(dest.columns) && c !in Live(src.columns))
            || (exists n :: n in Live(dest.indexes) && n !in Live(src.indexes))
  {
    NoneMissing(dest.columns, src.columns);
    NoneMissing(dest.indexes, src.indexes);
    NoneMissing(src.indexes, dest.indexes);
    NoneMissing(dest.constraints, src.constraints);
    NoneMissing(src.constraints, dest.constraints);
    AlteredExactly(src.columns, dest.columns);
  }

  lemma PlannedAdds(src: SqliteTable, dest: SqliteTable)
    requires Planned(Diff(src, dest), false).Some?
    ensures InPlace(Planned(Diff(src, dest), false).value)
         == ColumnAdds(Missing(dest.columns, src.columns)) + IndexCreates(Missing(dest.indexes, src.indexes))
  {
  }

  /** Without permission to drop objects, if the statements go through, just the columns and indexes have come that the
      table lacked, as they are wanted, with their foreign keys and with the defaults in all rows. */
  lemma WithoutDropsAdds(table: string, src: SqliteTable, dest: SqliteTable, st: State)
    requires PlainTable(src) && PlainTable(dest) && Planned(Diff(src, dest), false).Some?
    ensures var after := ApplyEdits(table, st, InPlace(Planned(Diff(src, dest), false).value));
      after.Some? ==>
        && Widened(table, st, Extra(Live(dest.columns), Live(src.columns)), after.value.(indexes := st.indexes))
        && after.value.indexes == st.indexes + Extra(Live(dest.indexes), Live(src.indexes))
  {
    PlannedAdds(src, dest);
    MissingLive(dest.columns, src.columns);
    MissingLive(dest.indexes, src.indexes);
    AddsWiden(table, st, Missing(dest.columns, src.columns), Missing(dest.indexes, src.indexes));
  }

  lemma NoneMissing<T(!new)>(xs: seq<Object<T>>, others: seq<Object<T>>)
    requires Plain(xs) && Plain(others)
    ensures Missing(xs, others) != [] <==> exists n :: n in Live(xs) && n !in Live(others)
  {
    MissingLive(xs, others);
    var missing := Missing(xs, others);
    if missing != [] {
      assert missing[0].name in Names(missing);
    }
    if n :| n in Live(xs) && n !in Live(others) {
      assert n in Names(missing);
    }
  }
}
