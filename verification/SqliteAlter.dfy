/** A SQLite table that is altered in place: when that reaches the table that is wanted, and what its rows are then. */
module SqliteAlter {
  import opened Common
  import opened Catalogs
  import opened SqliteTables
  import opened SqlitePlan
  import opened SqliteShapes
  import opened SqliteInPlace

  /** The table in the database is the one in the catalog, and its rows are as its columns and keys say. */
  ghost predicate Fits(st: State, s: Shape) {
    && ShapeIn(st) == s && st.inline <= st.constraints.Keys
    && (forall i :: 0 <= i < |st.rows| ==> st.rows[i].Keys == s.columns.Keys)
    && Allows(s.columns, st.rows) && KeysHold(s.constraints, st.rows) && IndexesHold(s.indexes, st.rows)
  }

  /** There are no rows, or a column that comes has a value for them. */
  ghost predicate AddsFit(s: Shape, d: Shape, rows: seq<Record>) {
    rows == [] || forall c :: c in d.columns && c !in s.columns ==> FitsRows(d.columns[c])
  }

  /** A column that goes has no foreign key that is declared with the table. */
  ghost predicate DropsFree(st: State, d: Shape) {
    forall n :: n in st.constraints && Inline(st.constraints[n]) && n !in st.inline ==>
      st.constraints[n].columns[0] in d.columns
  }

  /** Unique indexes that come hold for the rows there will be. */
  ghost predicate NewIndexesHold(s: Shape, d: Shape, rows: seq<Record>) {
    forall n :: n in d.indexes && n !in s.indexes && d.indexes[n].isUnique ==>
      !HasDuplicates(RowsFor(s, d, rows), d.indexes[n].columns)
  }

  /** Some column stays. */
  ghost predicate SomeStays(s: Shape, d: Shape) {
    exists c :: c in s.columns && c in d.columns
  }

  /** The rows of a table, for another that has some of its columns. */
  function RowsFor(s: Shape, d: Shape, rows: seq<Record>): seq<Record> {
    seq(|rows|, i requires 0 <= i < |rows| => RowFor(s, d, rows[i]))
  }

  function RowFor(s: Shape, d: Shape, r: Record): Record {
    map c | c in d.columns :: if c in s.columns then Get(r, c) else Default(d.columns[c])
  }

  // ----- in place -----

  lemma SameKey(table: string, s: Shape, d: Shape, constraintType: ConstraintType, c: string)
    requires Agree(s, d) && NoCopy(s, d) && constraintType != ForeignKey
    ensures HasKey(table, s, constraintType, c) ==> HasKey(table, d, constraintType, c)
    ensures HasKey(table, d, constraintType, c) ==> HasKey(table, s, constraintType, c)
  {
  }

  /** A column that stays has the same definition. */
  lemma ColumnStays(table: string, s: Shape, d: Shape, c: string)
    requires WellFormed(table, s) && WellFormed(table, d) && Agree(s, d) && NoCopy(s, d) && SameRest(s, d)
    requires c in s.columns && c in d.columns
    ensures s.columns[c] == d.columns[c]
  {
    assert ColumnFits(table, s, c) && ColumnFits(table, d, c);
    SameKey(table, s, d, PrimaryKey, c);
    SameKey(table, s, d, Unique, c);
    ReferenceStays(table, s, d, c);
    ReferenceStays(table, d, s, c);
  }

  lemma ReferenceStays(table: string, s: Shape, d: Shape, c: string)
    requires c in s.columns && c in d.columns && ColumnFits(table, s, c) && AllFit(table, d) && Agree(s, d)
    requires NoCopy(s, d)
    ensures s.columns[c].references.Some? ==> d.columns[c].references == s.columns[c].references
  {
    var n := KeyName(table, c);
    if s.columns[c].references.Some? {
      assert n in d.constraints;
      assert ConstraintFits(table, d, n);
    }
  }

  /** Nothing that stays holds a column that goes. */
  lemma NotHeld(table: string, s: Shape, d: Shape, st: State, c: string)
    requires WellFormed(table, d) && Agree(s, d) && NoCopy(s, d) && c !in d.columns
    requires st.constraints == s.constraints && DropsFree(st, d)
    requires forall n :: n in st.indexes ==> n in d.indexes && d.indexes[n] == st.indexes[n]
    ensures !Held(st, c)
  {
    forall n | n in d.constraints ensures c !in d.constraints[n].columns {
      assert ConstraintFits(table, d, n);
    }
  }

  /** A column that comes can be added. */
  lemma ComesFresh(table: string, s: Shape, d: Shape, st: State, c: SqlColumn)
    requires WellFormed(table, s) && WellFormed(table, d) && Agree(s, d) && NoCopy(s, d)
    requires st.rows == [] || FitsRows(c.def)
    requires !c.ignore && c.name in d.columns && d.columns[c.name] == c.def && c.name !in s.columns
    requires st.columns.Keys <= s.columns.Keys && st.constraints.Keys <= s.constraints.Keys
    ensures Fresh(table, st, d, c)
  {
    assert ColumnFits(table, d, c.name);
    forall n | n in s.constraints && n in d.constraints ensures c.name !in d.constraints[n].columns {
      assert ConstraintFits(table, s, n);
    }
    assert !HasKey(table, d, PrimaryKey, c.name) && !HasKey(table, d, Unique, c.name);
  }

  lemma ColumnsReached(table: string, src: SqliteTable, dest: SqliteTable)
    requires PlainTable(src) && PlainTable(dest) && WellFormed(table, ShapeOf(src)) && WellFormed(table, ShapeOf(dest))
    requires Agree(ShapeOf(src), ShapeOf(dest)) && NoCopy(ShapeOf(src), ShapeOf(dest))
    requires SameRest(ShapeOf(src), ShapeOf(dest))
    ensures var a := Diff(src, dest);
            (Live(src.columns) - Names(a.dropColumns)) + Live(a.addColumns) == Live(dest.columns)
  {
    var s, d := ShapeOf(src), ShapeOf(dest);
    forall c | c in s.columns && c in d.columns ensures s.columns[c] == d.columns[c] {
      ColumnStays(table, s, d, c);
    }
    MissingLive(src.columns, dest.columns);
    MissingLive(dest.columns, src.columns);
    Exchanged(s.columns, d.columns);
  }

  lemma ConstraintsReached(table: string, s: Shape, d: Shape)
    requires AllFit(table, d) && Agree(s, d) && NoCopy(s, d)
    ensures OnTheWay(ConstraintsWithout(s.constraints, s.columns.Keys - d.columns.Keys), d.constraints,
                     d.columns.Keys - s.columns.Keys) == d.constraints
    ensures forall n :: n in ConstraintsWithout(s.constraints, s.columns.Keys - d.columns.Keys) ==>
        n in d.constraints && d.constraints[n] == s.constraints[n]
  {
    forall n | n in d.constraints && n in s.constraints
        ensures !OwnKey(s.constraints[n], s.columns.Keys - d.columns.Keys) {
      assert ConstraintFits(table, d, n);
    }
  }

  lemma IndexesReached(src: seq<Index>, dest: seq<Index>)
    requires Plain(src) && Plain(dest)
    requires forall n :: n in Live(src) && n in Live(dest) ==> Live(src)[n] == Live(dest)[n]
    ensures (Live(src) - Names(Missing(src, dest))) + Live(Missing(dest, src)) == Live(dest)
    ensures Names(Missing(dest, src)) !! (Live(src) - Names(Missing(src, dest))).Keys
    ensures forall n :: n in Live(src) - Names(Missing(src, dest)) ==> n in Live(dest) && Live(dest)[n] == Live(src)[n]
  {
    MissingLive(src, dest);
    MissingLive(dest, src);
    Exchanged(Live(src), Live(dest));
  }

  lemma {:induction false} DefaultsOf(cs: seq<SqlColumn>)
    requires Plain(cs)
    ensures Defaults(cs).Keys == Live(cs).Keys && forall c :: c in Live(cs) ==> Defaults(cs)[c] == Default(Live(cs)[c])
  {
    if cs == [] {
    } else {
      DefaultsOf(cs[..|cs| - 1]);
    }
  }

  /** The rows lose the values of columns that go and get defaults for those that come. */
  lemma RowsReached(src: SqliteTable, dest: SqliteTable, rows: seq<Record>)
    requires PlainTable(src) && PlainTable(dest) && forall i :: 0 <= i < |rows| ==>
        rows[i].Keys == Live(src.columns).Keys
    ensures var a := Diff(src, dest);
            RowsPlus(RowsWithout(rows, Names(a.dropColumns)), Defaults(a.addColumns))
                == RowsFor(ShapeOf(src), ShapeOf(dest), rows)
  {
    var s, d, more := ShapeOf(src), ShapeOf(dest), Defaults(Missing(dest.columns, src.columns));
    MissingLive(src.columns, dest.columns);
    DefaultsAdded(src.columns, dest.columns);
    forall i | 0 <= i < |rows| ensures (rows[i] - (s.columns.Keys - d.columns.Keys)) + more == RowFor(s, d, rows[i]) {
      OneRowReached(s, d, rows[i], more);
    }
  }

  lemma DefaultsAdded(src: seq<SqlColumn>, dest: seq<SqlColumn>)
    requires Plain(src) && Plain(dest)
    ensures var more := Defaults(Missing(dest, src));
            more.Keys == Live(dest).Keys - Live(src).Keys && forall c :: c in more ==> more[c] == Default(Live(dest)[c])
  {
    MissingLive(dest, src);
    DefaultsOf(Missing(dest, src));
  }

  lemma OneRowReached(s: Shape, d: Shape, r: Record, more: map<string, Option<string>>)
    requires r.Keys == s.columns.Keys && more.Keys == d.columns.Keys - s.columns.Keys
    requires forall c :: c in more ==> more[c] == Default(d.columns[c])
    ensures (r - (s.columns.Keys - d.columns.Keys)) + more == RowFor(s, d, r)
  {
  }

  /** The foreign keys declared with a column stay so, and so do those that come. */
  function InlineAfter(s: Shape, d: Shape, inline: set<string>): set<string> {
    set n | n in d.constraints && (n in inline || n !in s.constraints)
  }

  /** The table that is wanted, with its rows. */
  function Goal(s: Shape, d: Shape, inline: set<string>, rows: seq<Record>): State {
    State(d.columns, d.constraints, inline, d.indexes, RowsFor(s, d, rows))
  }

  /** The setting of a change: two tables of a name that are well formed and agree. */
  ghost predicate Setting(table: string, src: SqliteTable, dest: SqliteTable) {
    && PlainTable(src) && PlainTable(dest)
    && WellFormed(table, ShapeOf(src)) && WellFormed(table, ShapeOf(dest)) && Agree(ShapeOf(src), ShapeOf(dest))
  }

  lemma IndexesDropped(table: string, src: SqliteTable, dest: SqliteTable, st: State)
    requires PlainTable(src) && PlainTable(dest) && st.indexes == Live(src.indexes)
    ensures var drops := Missing(src.indexes, dest.indexes);
            ApplyEdits(table, st, IndexDrops(drops)) == Some(st.(indexes := st.indexes - Names(drops)))
  {
    MissingLive(src.indexes, dest.indexes);
    IndexDropsRun(table, st, Missing(src.indexes, dest.indexes));
  }

  /** The columns are dropped, after the indexes. */
  lemma DropsWork(table: string, src: SqliteTable, dest: SqliteTable, st: State)
    requires Setting(table, src, dest) && NoCopy(ShapeOf(src), ShapeOf(dest)) && ShapeIn(st) == ShapeOf(src)
    requires SomeStays(ShapeOf(src), ShapeOf(dest)) && DropsFree(st, ShapeOf(dest)) && st.inline <= st.constraints.Keys
    ensures var a := Diff(src, dest);
            ApplyEdits(table, st, IndexDrops(a.dropIndexes) + ColumnDrops(a.dropColumns))
            == Some(Without(st.(indexes := st.indexes - Names(a.dropIndexes)), Names(a.dropColumns)))
  {
    var a := Diff(src, dest);
    var st1 := st.(indexes := st.indexes - Names(a.dropIndexes));
    IndexesDropped(table, src, dest, st);
    MissingLive(src.columns, dest.columns);
    IndexesReached(src.indexes, dest.indexes);
    forall c | c in Names(a.dropColumns) ensures !Held(st1, c) {
      NotHeld(table, ShapeOf(src), ShapeOf(dest), st1, c);
    }
    var kept :| kept in ShapeOf(src).columns && kept in ShapeOf(dest).columns;
    ColumnDropsRun(table, st1, a.dropColumns, kept);
    EditsConcat(table, st, IndexDrops(a.dropIndexes), ColumnDrops(a.dropColumns));
  }

  /** Then columns are added, and the columns and constraints are those that are wanted. */
  lemma AddsWork(table: string, src: SqliteTable, dest: SqliteTable, st: State, inline: set<string>, rows: seq<Record>)
    requires Setting(table, src, dest) && NoCopy(ShapeOf(src), ShapeOf(dest)) && SameRest(ShapeOf(src), ShapeOf(dest))
    requires AddsFit(ShapeOf(src), ShapeOf(dest), rows)
    requires forall i :: 0 <= i < |rows| ==> rows[i].Keys == Live(src.columns).Keys
    requires AreDropped(src, dest, st, inline, rows)
    ensures var s, d := ShapeOf(src), ShapeOf(dest);
            ApplyEdits(table, st, ColumnAdds(Diff(src, dest).addColumns))
            == Some(State(d.columns, d.constraints, InlineAfter(s, d, inline), st.indexes, RowsFor(s, d, rows)))
  {
    var a, s, d := Diff(src, dest), ShapeOf(src), ShapeOf(dest);
    ConstraintsReached(table, s, d);
    AddsFresh(table, src, dest, st);
    ColumnAddsRun(table, st, d, a.addColumns);
    ColumnsReached(table, src, dest);
    RowsReached(src, dest, rows);
    MissingLive(src.columns, dest.columns);
    MissingLive(dest.columns, src.columns);
    InlineReached(table, s, d, st, inline);
  }

  /** The state once the columns are dropped. */
  ghost predicate AreDropped(src: SqliteTable, dest: SqliteTable, st: State, inline: set<string>, rows: seq<Record>) {
    var gone := Live(src.columns).Keys - Live(dest.columns).Keys;
    && st.columns == Live(src.columns) - gone && st.constraints == ConstraintsWithout(Live(src.constraints), gone)
    && (forall n :: n in st.inline <==> n in inline && n in st.constraints)
    && st.rows == RowsWithout(rows, gone) && inline <= Live(src.constraints).Keys
  }

  lemma InlineReached(table: string, s: Shape, d: Shape, st: State, inline: set<string>)
    requires AllFit(table, d) && Agree(s, d)
    requires st.constraints == ConstraintsWithout(s.constraints, s.columns.Keys - d.columns.Keys)
    requires (forall n :: n in st.inline <==> n in inline && n in st.constraints) && inline <= s.constraints.Keys
    ensures InlineOf(st, d.constraints) == InlineAfter(s, d, inline)
  {
    forall n | n in d.constraints && n in s.constraints
      ensures !OwnKey(s.constraints[n], s.columns.Keys - d.columns.Keys)
    {
      assert ConstraintFits(table, d, n);
    }
  }

  lemma AddsFresh(table: string, src: SqliteTable, dest: SqliteTable, st: State)
    requires Setting(table, src, dest) && NoCopy(ShapeOf(src), ShapeOf(dest))
    requires AddsFit(ShapeOf(src), ShapeOf(dest), st.rows)
    requires st.columns.Keys <= Live(src.columns).Keys && st.constraints.Keys <= Live(src.constraints).Keys
    ensures AllFresh(table, st, ShapeOf(dest), Missing(dest.columns, src.columns))
    ensures Plain(Missing(dest.columns, src.columns))
  {
    MissingNames(dest.columns, src.columns);
    forall c | c in Missing(dest.columns, src.columns) ensures Fresh(table, st, ShapeOf(dest), c) {
      assert c.name in Names(Missing(dest.columns, src.columns));
      ComesFresh(table, ShapeOf(src), ShapeOf(dest), st, c);
    }
  }

  /** In place, all goes well up to the new unique indexes, which must hold. */
  lemma InPlaceRuns(table: string, src: SqliteTable, dest: SqliteTable, st: State)
    requires Setting(table, src, dest) && NoCopy(ShapeOf(src), ShapeOf(dest)) && SameRest(ShapeOf(src), ShapeOf(dest))
    requires ShapeIn(st) == ShapeOf(src) && st.inline <= st.constraints.Keys
    requires forall i :: 0 <= i < |st.rows| ==> st.rows[i].Keys == Live(src.columns).Keys
    requires SomeStays(ShapeOf(src), ShapeOf(dest)) && DropsFree(st, ShapeOf(dest))
    requires AddsFit(ShapeOf(src), ShapeOf(dest), st.rows)
    ensures var s, d := ShapeOf(src), ShapeOf(dest);
            ApplyEdits(table, st, InPlace(Diff(src, dest)))
            == if NewIndexesHold(s, d, st.rows) then Some(Goal(s, d, InlineAfter(s, d, st.inline), st.rows)) else None
  {
    var a := Diff(src, dest);
    var dropped := Without(st.(indexes := st.indexes - Names(a.dropIndexes)), Names(a.dropColumns));
    DropsWork(table, src, dest, st);
    MissingLive(src.columns, dest.columns);
    assert AreDropped(src, dest, dropped, st.inline, st.rows);
    AfterDrops(table, src, dest, st, dropped);
  }

  lemma AfterDrops(table: string, src: SqliteTable, dest: SqliteTable, st: State, st2: State)
    requires Setting(table, src, dest) && NoCopy(ShapeOf(src), ShapeOf(dest)) && SameRest(ShapeOf(src), ShapeOf(dest))
    requires AddsFit(ShapeOf(src), ShapeOf(dest), st.rows)
    requires forall i :: 0 <= i < |st.rows| ==> st.rows[i].Keys == Live(src.columns).Keys
    requires var a := Diff(src, dest);
             ApplyEdits(table, st, IndexDrops(a.dropIndexes) + ColumnDrops(a.dropColumns)) == Some(st2)
    requires AreDropped(src, dest, st2, st.inline, st.rows)
    requires st2.indexes == Live(src.indexes) - Names(Missing(src.indexes, dest.indexes))
    ensures var s, d := ShapeOf(src), ShapeOf(dest);
            ApplyEdits(table, st, InPlace(Diff(src, dest)))
            == if NewIndexesHold(s, d, st.rows) then Some(Goal(s, d, InlineAfter(s, d, st.inline), st.rows)) else None
  {
    var a, s, d := Diff(src, dest), ShapeOf(src), ShapeOf(dest);
    AddsWork(table, src, dest, st2, st.inline, st.rows);
    var st3 := State(d.columns, d.constraints, InlineAfter(s, d, st.inline), st2.indexes, RowsFor(s, d, st.rows));
    CreatesWork(table, src, dest, st3, st.rows);
    InTurn(table, st, IndexDrops(a.dropIndexes) + ColumnDrops(a.dropColumns), st2, ColumnAdds(a.addColumns), st3,
           IndexCreates(a.createIndexes));
  }

  lemma InTurn(table: string, st: State, a: seq<Edit>, st2: State, b: seq<Edit>, st3: State, c: seq<Edit>)
    requires ApplyEdits(table, st, a) == Some(st2) && ApplyEdits(table, st2, b) == Some(st3)
    ensures ApplyEdits(table, st, a + b + c) == ApplyEdits(table, st3, c)
  {
    EditsConcat(table, st, a, b);
    EditsConcat(table, st, a + b, c);
  }

  lemma CreatesWork(table: string, src: SqliteTable, dest: SqliteTable, st: State, rows: seq<Record>)
    requires Setting(table, src, dest) && st.columns == Live(dest.columns)
    requires st.indexes == Live(src.indexes) - Names(Missing(src.indexes, dest.indexes))
    requires st.rows == RowsFor(ShapeOf(src), ShapeOf(dest), rows)
    ensures ApplyEdits(table, st, IndexCreates(Missing(dest.indexes, src.indexes)))
         == if NewIndexesHold(ShapeOf(src), ShapeOf(dest), rows) then Some(st.(indexes := Live(dest.indexes))) else None
  {
    var s, d := ShapeOf(src), ShapeOf(dest);
    IndexesReached(src.indexes, dest.indexes);
    MissingNames(dest.indexes, src.indexes);
    if NewIndexesHold(s, d, rows) {
      forall x | x in Missing(dest.indexes, src.indexes) && x.def.isUnique
          ensures !HasDuplicates(st.rows, x.def.columns) {
        assert x.name in Names(Missing(dest.indexes, src.indexes));
      }
      IndexCreatesRun(table, st, Missing(dest.indexes, src.indexes));
    } else {
      var n :| n in d.indexes && n !in s.indexes && d.indexes[n].isUnique
          && HasDuplicates(st.rows, d.indexes[n].columns);
      RefusedCreate(table, st, Missing(dest.indexes, src.indexes), Object(n, false, d.indexes[n]));
    }
  }

  // ----- when it does not work -----

  lemma InPlaceFails(table: string, src: SqliteTable, dest: SqliteTable, st: State)
    requires PlainTable(src) && PlainTable(dest) && ShapeIn(st) == ShapeOf(src) && src.columns != []
    requires WellFormed(table, ShapeOf(src))
    requires var s, d := ShapeOf(src), ShapeOf(dest);
             !SomeStays(s, d) || !AddsFit(s, d, st.rows) || !DropsFree(st, d)
    ensures ApplyEdits(table, st, InPlace(Diff(src, dest))) == None
  {
    var a, s, d := Diff(src, dest), ShapeOf(src), ShapeOf(dest);
    var drops := IndexDrops(a.dropIndexes) + ColumnDrops(a.dropColumns);
    EditsConcat(table, st, IndexDrops(a.dropIndexes), ColumnDrops(a.dropColumns));
    EditsConcat(table, st, drops, ColumnAdds(a.addColumns));
    EditsConcat(table, st, drops + ColumnAdds(a.addColumns), IndexCreates(a.createIndexes));
    if !SomeStays(s, d) {
      AllColumnsGo(table, src, dest, st);
    } else if !DropsFree(st, d) {
      TableKeyHolds(table, src, dest, st);
    } else if ApplyEdits(table, st, drops).Some? {
      MissingNames(dest.columns, src.columns);
      var c :| c in d.columns && c !in s.columns && !FitsRows(d.columns[c]);
      RowsStay(table, st, drops);
      RefusedAdd(table, ApplyEdits(table, st, drops).value, a.addColumns, Object(c, false, d.columns[c]));
    }
  }

  lemma TableKeyHolds(table: string, src: SqliteTable, dest: SqliteTable, st: State)
    requires PlainTable(src) && PlainTable(dest) && ShapeIn(st) == ShapeOf(src) && WellFormed(table, ShapeOf(src))
    requires !DropsFree(st, ShapeOf(dest))
    ensures var a := Diff(src, dest);
            match ApplyEdits(table, st, IndexDrops(a.dropIndexes))
            case None => true
            case Some(mid) => ApplyEdits(table, mid, ColumnDrops(a.dropColumns)) == None
  {
    var a, d := Diff(src, dest), ShapeOf(dest);
    IndexesDropped(table, src, dest, st);
    MissingLive(src.columns, dest.columns);
    var n :| n in st.constraints && Inline(st.constraints[n]) && n !in st.inline
        && st.constraints[n].columns[0] !in d.columns;
    assert ConstraintFits(table, ShapeOf(src), n);
    RefusedDrop(table, st.(indexes := st.indexes - Names(a.dropIndexes)), a.dropColumns, n);
  }

  lemma AllColumnsGo(table: string, src: SqliteTable, dest: SqliteTable, st: State)
    requires PlainTable(src) && PlainTable(dest) && ShapeIn(st) == ShapeOf(src) && src.columns != []
    requires !SomeStays(ShapeOf(src), ShapeOf(dest))
    ensures var a := Diff(src, dest);
            match ApplyEdits(table, st, IndexDrops(a.dropIndexes))
            case None => true
            case Some(mid) => ApplyEdits(table, mid, ColumnDrops(a.dropColumns)) == None
  {
    var a := Diff(src, dest);
    IndexesDropped(table, src, dest, st);
    AllMissing(src.columns, dest.columns);
    DropsOfAllFail(table, st.(indexes := st.indexes - Names(a.dropIndexes)), a.dropColumns);
  }

  lemma AllMissing(src: seq<SqlColumn>, dest: seq<SqlColumn>)
    requires Plain(src) && Plain(dest) && src != [] && forall c :: c in Live(src) ==> c !in Live(dest)
    ensures Plain(Missing(src, dest)) && Missing(src, dest) != [] && Names(Missing(src, dest)) == Live(src).Keys
  {
    MissingLive(src, dest);
    NamesOfLive(src);
    assert src[|src| - 1].name in Names(src);
  }

  lemma InPlaceTouches(src: SqliteTable, dest: SqliteTable)
    requires PlainTable(src) && PlainTable(dest)
    ensures Touches(InPlace(Diff(src, dest)), Live(src.columns).Keys - Live(dest.columns).Keys,
                    Live(dest.columns).Keys - Live(src.columns).Keys)
  {
    var a := Diff(src, dest);
    var dropped, added := Live(src.columns).Keys - Live(dest.columns).Keys,
        Live(dest.columns).Keys - Live(src.columns).Keys;
    MissingLive(src.columns, dest.columns);
    MissingLive(dest.columns, src.columns);
    ColumnsTouched(a.dropColumns, dropped, added);
    ColumnsTouched(a.addColumns, dropped, added);
    TouchesConcat(IndexDrops(a.dropIndexes), ColumnDrops(a.dropColumns), dropped, added);
    TouchesConcat(IndexDrops(a.dropIndexes) + ColumnDrops(a.dropColumns), ColumnAdds(a.addColumns), dropped, added);
    TouchesConcat(IndexDrops(a.dropIndexes) + ColumnDrops(a.dropColumns) + ColumnAdds(a.addColumns),
                  IndexCreates(a.createIndexes), dropped, added);
  }

  lemma ColumnsTouched(cs: seq<SqlColumn>, dropped: set<string>, added: set<string>)
    ensures Names(cs) <= dropped ==> Touches(ColumnDrops(cs), dropped, added)
    ensures Names(cs) <= added ==> Touches(ColumnAdds(cs), dropped, added)
  {
    forall i | 0 <= i < |cs| ensures cs[i].name in Names(cs) {
      assert cs[i] in cs;
    }
  }

  /** What a caller can check before a table is altered in place: some column stays; the table has no rows, or columns
      that come have values for them; no column that goes has a foreign key that is declared with the table; and unique
      indexes that come hold. */
  ghost predicate CanAlterInPlace(st: State, s: Shape, d: Shape) {
    SomeStays(s, d) && AddsFit(s, d, st.rows) && DropsFree(st, d) && NewIndexesHold(s, d, st.rows)
  }

  /** The statements that are run in place reach the table that is wanted exactly if no copy is made, they can be
      run, and what the planner does not compare is the same; then each row keeps its values. */
  lemma InPlaceReachesExactly(table: string, src: SqliteTable, dest: SqliteTable, st: State)
    requires Setting(table, src, dest) && src.columns != [] && Fits(st, ShapeOf(src))
    ensures var s, d, r := ShapeOf(src), ShapeOf(dest), ApplyEdits(table, st, InPlace(Diff(src, dest)));
            && (r.Some? && ShapeIn(r.value) == d
                <==> !MustCopy(Diff(src, dest)) && CanAlterInPlace(st, s, d) && SameRest(s, d))
            && (r.Some? && ShapeIn(r.value) == d ==> r.value.rows == RowsFor(s, d, st.rows))
  {
    var s, d := ShapeOf(src), ShapeOf(dest);
    var r := ApplyEdits(table, st, InPlace(Diff(src, dest)));
    MustCopyExactly(src, dest);
    if !SomeStays(s, d) || !AddsFit(s, d, st.rows) || !DropsFree(st, d) {
      InPlaceFails(table, src, dest, st);
    } else if NoCopy(s, d) && SameRest(s, d) {
      InPlaceRuns(table, src, dest, st);
    } else if r.Some? && ShapeIn(r.value) == d {
      InPlaceTouches(src, dest);
      ReachedInPlace(table, st, InPlace(Diff(src, dest)), d);
    }
  }
}
