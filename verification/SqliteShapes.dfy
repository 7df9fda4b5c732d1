/** What a SQLite table consists of, and what edits in place can make of it. */
module SqliteShapes {
  import opened Common
  import opened Catalogs
  import opened SqliteTables
  import opened SqlitePlan

  datatype Shape = Shape(
    columns: map<string, SqliteColumn>,
    constraints: map<string, ConstraintDef>,
    indexes: map<string, IndexDef>)

  function ShapeOf(t: SqliteTable): Shape {
    Shape(Live(t.columns), Live(t.constraints), Live(t.indexes))
  }

  function ShapeIn(st: State): Shape {
    Shape(st.columns, st.constraints, st.indexes)
  }

  ghost predicate PlainTable(t: SqliteTable) {
    Plain(t.columns) && Plain(t.constraints) && Plain(t.indexes)
  }

  /** A constraint of the type has the column, and no other. */
  predicate HasKey(table: string, s: Shape, constraintType: ConstraintType, c: string) {
    var n := GenerateName(constraintType, table, [c]);
    n in s.constraints && s.constraints[n].constraintType == constraintType && s.constraints[n].columns == [c]
  }

  ghost predicate ConstraintFits(table: string, s: Shape, n: string)
    requires n in s.constraints
  {
    var d := s.constraints[n];
    && (d.constraintType != Check ==> d.columns != [] && n == GenerateName(d.constraintType, table, d.columns))
    && (forall c :: c in d.columns ==> c in s.columns)
    && (Inline(d) ==>
       d.columns[0] in s.columns
           && s.columns[d.columns[0]].references == Some(Reference(d.references, d.referencesColumns)))
  }

  ghost predicate ColumnFits(table: string, s: Shape, c: string)
    requires c in s.columns
  {
    var d := s.columns[c];
    && d.isPrimaryKey == HasKey(table, s, PrimaryKey, c)
    && d.isUnique == HasKey(table, s, Unique, c)
    && (d.references.Some? ==>
          KeyName(table, c) in s.constraints
              && s.constraints[KeyName(table, c)] == InlineConstraint(c, d.references.value))
  }

  /** Constraints and indexes are on columns of the table, and column definitions tell what constraints tell. */
  ghost predicate WellFormed(table: string, s: Shape) {
    && (forall n :: n in s.constraints ==> ConstraintFits(table, s, n))
    && (forall c :: c in s.columns ==> ColumnFits(table, s, c))
    && (forall n :: n in s.indexes ==> forall c :: c in s.indexes[n].columns ==> c in s.columns)
  }

  /** Constraints and indexes of the same name are the same. */
  ghost predicate Agree(s: Shape, d: Shape) {
    && (forall n :: n in s.constraints && n in d.constraints ==> s.constraints[n] == d.constraints[n])
    && (forall n :: n in s.indexes && n in d.indexes ==> s.indexes[n] == d.indexes[n])
  }

  /** No column is to be altered, and the constraints that differ are foreign keys of columns that do. */
  ghost predicate NoCopy(s: Shape, d: Shape) {
    && (forall c :: c in s.columns && c in d.columns ==> !Different(s.columns[c], d.columns[c]))
    && (forall n :: n in s.constraints && n !in d.constraints ==>
       OwnKey(s.constraints[n], s.columns.Keys - d.columns.Keys))
    && (forall n :: n in d.constraints && n !in s.constraints ==>
       OwnKey(d.constraints[n], d.columns.Keys - s.columns.Keys))
  }

  // ----- the plan in terms of shapes -----

  lemma MissingNames<T(!new)>(xs: seq<Object<T>>, others: seq<Object<T>>)
    requires Plain(xs) && Plain(others)
    ensures Names(Missing(xs, others)) == Live(xs).Keys - Live(others).Keys
    ensures forall x :: x in Missing(xs, others) ==>
        x in xs && x.name in Live(xs) && Live(xs)[x.name] == x.def && !x.ignore
    ensures forall n :: n in Live(xs) && n !in Live(others) ==> Object(n, false, Live(xs)[n]) in Missing(xs, others)
    ensures Plain(Missing(xs, others))
  {
    var missing := Missing(xs, others);
    MissingMember(xs, others);
    LiveOf(xs);
    LiveOf(missing);
    forall n | n in Names(missing) ensures n in Live(xs) && n !in Live(others) {
      assert Object(n, false, Live(missing)[n]) in missing;
    }
  }

  /** What one map has and another does not. */
  function Extra<T, U>(m: map<string, T>, others: map<string, U>): map<string, T> {
    map n | n in m && n !in others :: m[n]
  }

  lemma MissingLive<T(!new)>(xs: seq<Object<T>>, others: seq<Object<T>>)
    requires Plain(xs) && Plain(others)
    ensures Plain(Missing(xs, others)) && Live(Missing(xs, others)) == Extra(Live(xs), Live(others))
    ensures Names(Missing(xs, others)) == Live(xs).Keys - Live(others).Keys
  {
    MissingNames(xs, others);
    var missing := Missing(xs, others);
    LiveOf(missing);
    forall n | n in Live(missing) ensures n in Live(xs) && Live(missing)[n] == Live(xs)[n] {
      assert Object(n, false, Live(missing)[n]) in missing;
    }
  }

  /** A map without what another lacks, and with what that has in addition, is the other. */
  lemma Exchanged<T>(s: map<string, T>, d: map<string, T>)
    requires forall n :: n in s && n in d ==> s[n] == d[n]
    ensures (s - (s.Keys - d.Keys)) + Extra(d, s) == d
  {
  }

  lemma {:induction false} AlteredExactly(src: seq<SqlColumn>, dest: seq<SqlColumn>)
    requires Plain(src) && Plain(dest)
    ensures Altered(src, dest) != [] <==>
            exists c :: c in Live(src) && c in Live(dest) && Different(Live(src)[c], Live(dest)[c])
  {
    if dest == [] {
    } else {
      var init, d := dest[..|dest| - 1], dest[|dest| - 1];
      AlteredExactly(src, init);
      PlainInit(dest);
      FindIsLive(src, d.name);
      LiveMember(init, d.name);
      assert Live(dest) == Live(init)[d.name := d.def];
      if c :| c in Live(src) && c in Live(init) && Different(Live(src)[c], Live(init)[c]) {
        assert c in Live(dest) && Different(Live(src)[c], Live(dest)[c]);
      }
      if c :| c in Live(src) && c in Live(dest) && Different(Live(src)[c], Live(dest)[c]) {
        assert c != d.name ==> c in Live(init) && Different(Live(src)[c], Live(init)[c]);
      }
    }
  }

  lemma NeedsCopyExactly(xs: seq<Constraint>, others: seq<Constraint>, columns: seq<SqlColumn>)
    requires Plain(xs) && Plain(others)
    ensures (exists c :: c in Missing(xs, others) && NeedsCopy(c, columns))
       <==> !(forall n :: n in Live(xs) && n !in Live(others) ==> OwnKey(Live(xs)[n], Names(columns)))
  {
    MissingNames(xs, others);
    if c :| c in Missing(xs, others) && NeedsCopy(c, columns) {
      assert c.name in Names(Missing(xs, others));
    }
    if n :| n in Live(xs) && n !in Live(others) && !OwnKey(Live(xs)[n], Names(columns)) {
      assert NeedsCopy(Object(n, false, Live(xs)[n]), columns);
    }
  }

  /** A table is copied exactly if the shapes differ in more than whole columns with their foreign keys, and indexes. */
  lemma MustCopyExactly(src: SqliteTable, dest: SqliteTable)
    requires PlainTable(src) && PlainTable(dest)
    ensures MustCopy(Diff(src, dest)) <==> !NoCopy(ShapeOf(src), ShapeOf(dest))
  {
    MissingNames(src.columns, dest.columns);
    MissingNames(dest.columns, src.columns);
    AlteredExactly(src.columns, dest.columns);
    NeedsCopyExactly(src.constraints, dest.constraints, Missing(src.columns, dest.columns));
    NeedsCopyExactly(dest.constraints, src.constraints, Missing(dest.columns, src.columns));
  }

  // ----- what edits leave alone -----

  ghost predicate Touches(es: seq<Edit>, dropped: set<string>, added: set<string>) {
    forall i :: 0 <= i < |es| ==> match es[i]
      case DropColumn(c) => c in dropped
      case AddColumn(c) => c.name in added
      case DropIndex(_) => true
      case CreateIndex(_) => true
  }

  lemma TouchesConcat(a: seq<Edit>, b: seq<Edit>, dropped: set<string>, added: set<string>)
    requires Touches(a, dropped, added) && Touches(b, dropped, added)
    ensures Touches(a + b, dropped, added)
  {
  }

  ghost predicate ColumnsKept(before: State, after: State, touched: set<string>) {
    forall c :: c !in touched ==> (c in before.columns <==> c in after.columns)
                                  && (c in before.columns ==> before.columns[c] == after.columns[c])
  }

  ghost predicate ConstraintsKept(before: State, after: State, dropped: set<string>, added: set<string>) {
    && (forall n :: n in before.constraints && !OwnKey(before.constraints[n], dropped) ==>
          n in after.constraints && after.constraints[n] == before.constraints[n])
    && (forall n :: n in after.constraints && n !in before.constraints ==> OwnKey(after.constraints[n], added))
  }

  /** Edits in place change whole columns with their own foreign keys, and no other column or constraint. */
  lemma {:induction false} EditsFrame(table: string, st: State, es: seq<Edit>, dropped: set<string>, added: set<string>)
    requires Touches(es, dropped, added) && ApplyEdits(table, st, es).Some?
    ensures ColumnsKept(st, ApplyEdits(table, st, es).value, dropped + added)
    ensures ConstraintsKept(st, ApplyEdits(table, st, es).value, dropped, added)
  {
    if es == [] {
    } else {
      var init, last := es[..|es| - 1], es[|es| - 1];
      EditsFrame(table, st, init, dropped, added);
      EditFrame(table, ApplyEdits(table, st, init).value, last, dropped, added);
    }
  }

  lemma EditFrame(table: string, st: State, e: Edit, dropped: set<string>, added: set<string>)
    requires Touches([e], dropped, added) && ApplyEdit(table, st, e).Some?
    ensures ColumnsKept(st, ApplyEdit(table, st, e).value, dropped + added)
    ensures ConstraintsKept(st, ApplyEdit(table, st, e).value, dropped, added)
  {
    assert [e][0] == e;
  }

  /** What the planner does not compare is the same in columns that stay. */
  ghost predicate SameRest(s: Shape, d: Shape) {
    forall c :: c in s.columns && c in d.columns ==>
      s.columns[c].collation == d.columns[c].collation && s.columns[c].isAutoincrement == d.columns[c].isAutoincrement
  }

  /** If edits in place of the columns that differ reach the shape, then no copy is needed. */
  lemma ReachedInPlace(table: string, st: State, es: seq<Edit>, d: Shape)
    requires Touches(es, st.columns.Keys - d.columns.Keys, d.columns.Keys - st.columns.Keys)
    requires ApplyEdits(table, st, es).Some? && ShapeIn(ApplyEdits(table, st, es).value) == d
    ensures NoCopy(ShapeIn(st), d) && SameRest(ShapeIn(st), d)
  {
    EditsFrame(table, st, es, st.columns.Keys - d.columns.Keys, d.columns.Keys - st.columns.Keys);
  }
}
