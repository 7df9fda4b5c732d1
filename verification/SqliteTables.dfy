/** SQLite tables, and the statements that change them. The statements are those that SQLite has:
    a constraint is part of its table, and of one column only if it is a foreign key of that column. */
module SqliteTables {
  import opened Common
  import opened Catalogs

  datatype Reference = Reference(table: TableID, columns: seq<string>)

  /** Type and default are in normalized form. The last three are what a column definition says about constraints. */
  datatype SqliteColumn = SqliteColumn(
    columnType: string,
    default: string,
    isNotNull: bool,
    collation: string,
    isAutoincrement: bool,
    isPrimaryKey: bool,
    isUnique: bool,
    references: Option<Reference>)

  type SqlColumn = Object<SqliteColumn>

  datatype SqliteTable = SqliteTable(columns: seq<SqlColumn>, constraints: seq<Constraint>, indexes: seq<Index>)

  // ----- names -----

  function Underscored(s: string): string {
    if s == "" then "" else [if s[0] == ' ' then '_' else s[0]] + Underscored(s[1..])
  }

  function Joined(columns: seq<string>): string {
    if columns == [] then "" else "_" + Underscored(columns[0]) + Joined(columns[1..])
  }

  function Suffix(constraintType: ConstraintType): (s: string)
    ensures |s| <= 6
  {
    match constraintType
    case PrimaryKey => "_pkey"
    case ForeignKey => "_fkey"
    case Unique => "_key"
    case Check => "_check"
  }

  /** The name of a constraint, which has no more than 63 characters. */
  function GenerateName(constraintType: ConstraintType, table: string, columns: seq<string>): string {
    var base, suffix := Underscored(table) + Joined(columns), Suffix(constraintType);
    var excess := |base| + |suffix| - 63;
    if excess > 0 then base[..|base| - excess] + suffix else base + suffix
  }

  // ----- the database -----

  /** No value is a null. */
  type Record = map<string, Option<string>>

  function Get(r: Record, c: string): Option<string> {
    if c in r then r[c] else None
  }

  /** A foreign key is declared with its column, if it is one of `inline`, or else with the table. */
  datatype State = State(
    columns: map<string, SqliteColumn>,
    constraints: map<string, ConstraintDef>,
    inline: set<string>,
    indexes: map<string, IndexDef>,
    rows: seq<Record>)

  type Database = map<string, State>

  function Default(c: SqliteColumn): Option<string> {
    if c.default == "" || c.default == "NULL" then None else Some(c.default)
  }

  /** The default is neither an expression in parentheses nor the current date or time. */
  predicate IsConstant(default: string) {
    (default == "" || default[0] != '(') && default !in ["CURRENT_TIME", "CURRENT_DATE", "CURRENT_TIMESTAMP"]
  }

  /** A column can be added to a table with rows: they have a value for it, which is the same for all. */
  predicate FitsRows(c: SqliteColumn) {
    (c.isNotNull ==> Default(c).Some?) && IsConstant(c.default)
  }

  predicate Inline(c: ConstraintDef) {
    c.constraintType == ForeignKey && |c.columns| == 1
  }

  function InlineConstraint(c: string, r: Reference): ConstraintDef {
    ConstraintDef(ForeignKey, [c], r.table, r.columns)
  }

  /** Two rows have the same values, none of them null. */
  predicate HasDuplicates(rows: seq<Record>, columns: seq<string>) {
    exists i, k :: 0 <= i < k < |rows| && SameValues(rows[i], rows[k], columns)
  }

  predicate SameValues(r: Record, s: Record, columns: seq<string>) {
    forall c :: c in columns ==> Get(r, c).Some? && Get(r, c) == Get(s, c)
  }

  /** The keys among some constraints hold for the rows. */
  predicate KeysHold(constraints: map<string, ConstraintDef>, rows: seq<Record>) {
    forall n :: n in constraints && IsUnique(constraints[n]) ==> !HasDuplicates(rows, constraints[n].columns)
  }

  predicate IsUnique(c: ConstraintDef) {
    c.constraintType == PrimaryKey || c.constraintType == Unique
  }

  predicate IndexesHold(indexes: map<string, IndexDef>, rows: seq<Record>) {
    forall n :: n in indexes && indexes[n].isUnique ==> !HasDuplicates(rows, indexes[n].columns)
  }

  /** Changes to a table in place. */
  datatype Edit =
    | DropIndex(name: string)
    | DropColumn(name: string)
    | AddColumn(column: SqlColumn)
    | CreateIndex(index: Index)

  datatype Statement =
    | OnTable(table: string, edit: Edit)
    | CreateTable(table: string, columns: seq<SqlColumn>, constraints: seq<Constraint>)
    | CopyRows(into: string, from: string, shared: seq<string>)
    | DropTable(table: string)
    | RenameTable(from: string, to: string)

  /** A constraint that is not declared with the column, or an index, needs the column. */
  predicate Held(st: State, c: string) {
    || (exists n ::
       n in st.constraints && c in st.constraints[n].columns && !(n in st.inline && Inline(st.constraints[n])))
    || (exists n :: n in st.indexes && c in st.indexes[n].columns)
  }

  predicate OwnKey(d: ConstraintDef, columns: set<string>) {
    Inline(d) && d.columns[0] in columns
  }

  function ConstraintsWithout(cs: map<string, ConstraintDef>, columns: set<string>): map<string, ConstraintDef> {
    map n | n in cs && !OwnKey(cs[n], columns) :: cs[n]
  }

  function RowsWithout(rows: seq<Record>, columns: set<string>): seq<Record> {
    seq(|rows|, i requires 0 <= i < |rows| => rows[i] - columns)
  }

  /** A table without some columns, and without their own foreign keys. */
  function Without(st: State, columns: set<string>): State {
    State(
      st.columns - columns,
      ConstraintsWithout(st.constraints, columns),
      (set n | n in st.inline && n in ConstraintsWithout(st.constraints, columns)),
      st.indexes,
      RowsWithout(st.rows, columns))
  }

  function RowsWith(rows: seq<Record>, c: string, value: Option<string>): seq<Record> {
    seq(|rows|, i requires 0 <= i < |rows| => rows[i][c := value])
  }

  function KeyName(table: string, column: string): string {
    GenerateName(ForeignKey, table, [column])
  }

  function ConstraintsWith(table: string, cs: map<string, ConstraintDef>, c: SqlColumn): map<string, ConstraintDef> {
    match c.def.references
    case None => cs
    case Some(r) => cs[KeyName(table, c.name) := InlineConstraint(c.name, r)]
  }

  /** A table with one more column, whose values are its default, and with its foreign key. */
  function With(table: string, st: State, c: SqlColumn): State {
    State(
      st.columns[c.name := c.def],
      ConstraintsWith(table, st.constraints, c),
      if c.def.references.Some? then st.inline + {KeyName(table, c.name)} else st.inline,
      st.indexes,
      RowsWith(st.rows, c.name, Default(c.def)))
  }

  /** A key cannot be added with a column, and rows must have a value for it. Names tell constraints apart. */
  predicate Addable(table: string, st: State, c: SqlColumn) {
    && c.name !in st.columns && !c.def.isPrimaryKey && !c.def.isUnique
    && (st.rows == [] || FitsRows(c.def))
    && (c.def.references.Some? ==> KeyName(table, c.name) !in st.constraints)
  }

  function ApplyEdit(table: string, st: State, e: Edit): Option<State> {
    match e
    case DropIndex(n) => if n in st.indexes then Some(st.(indexes := st.indexes - {n})) else None
    case DropColumn(c) =>
      if c in st.columns && st.columns.Keys != {c} && !Held(st, c) then Some(Without(st, {c})) else None
    case AddColumn(c) => if Addable(table, st, c) then Some(With(table, st, c)) else None
    case CreateIndex(x) =>
      if x.name !in st.indexes && (forall c :: c in x.def.columns ==> c in st.columns)
         && !(x.def.isUnique && HasDuplicates(st.rows, x.def.columns))
      then Some(st.(indexes := st.indexes[x.name := x.def]))
      else None
  }

  function ApplyEdits(table: string, st: State, es: seq<Edit>): Option<State> {
    if es == [] then Some(st)
    else match ApplyEdits(table, st, es[..|es| - 1])
      case None => None
      case Some(before) => ApplyEdit(table, before, es[|es| - 1])
  }

  /** A row for a table, from one that has some of its columns. */
  function Projected(columns: map<string, SqliteColumn>, common: seq<string>, r: Record): Record {
    map c | c in columns :: if c in common then Get(r, c) else Default(columns[c])
  }

  function AllProjected(columns: map<string, SqliteColumn>, common: seq<string>, rows: seq<Record>): seq<Record> {
    seq(|rows|, i requires 0 <= i < |rows| => Projected(columns, common, rows[i]))
  }

  /** There is no null in a column that has none. */
  predicate Allows(columns: map<string, SqliteColumn>, rows: seq<Record>) {
    forall i, c :: 0 <= i < |rows| && c in columns && columns[c].isNotNull ==> Get(rows[i], c).Some?
  }

  function Apply(db: Database, s: Statement): Option<Database> {
    match s
    case OnTable(t, e) =>
      if t !in db then None
      else
        (match ApplyEdit(t, db[t], e)
         case None => None
         case Some(st) => Some(db[t := st]))
    // A foreign key is written after the columns, whether it has one column or more.
    case CreateTable(t, columns, constraints) =>
      if t in db || Live(columns) == map[] then None
      else Some(db[t := State(Live(columns), Live(constraints), {}, map[], [])])
    case CopyRows(into, from, shared) =>
      if into !in db || from !in db || shared == [] then None
      else if exists c :: c in shared && (c !in db[into].columns || c !in db[from].columns) then None
      else
        var rows := AllProjected(db[into].columns, shared, db[from].rows);
        if Allows(db[into].columns, rows) && KeysHold(db[into].constraints, db[into].rows + rows)
        then Some(db[into := db[into].(rows := db[into].rows + rows)])
        else None
    case DropTable(t) => if t in db then Some(db - {t}) else None
    case RenameTable(from, to) => if from in db && to !in db then Some((db - {from})[to := db[from]]) else None
  }

  function Execute(db: Database, ss: seq<Statement>): Option<Database> {
    if ss == [] then Some(db)
    else match Execute(db, ss[..|ss| - 1])
      case None => None
      case Some(before) => Apply(before, ss[|ss| - 1])
  }

  lemma {:induction false} EditsConcat(table: string, st: State, a: seq<Edit>, b: seq<Edit>)
    ensures ApplyEdits(table, st, a + b)
         == match ApplyEdits(table, st, a) case None => None case Some(mid) => ApplyEdits(table, mid, b)
  {
    if b == [] {
      assert a + b == a;
    } else {
      EditsConcat(table, st, a, b[..|b| - 1]);
      assert (a + b)[..|a + b| - 1] == a + b[..|b| - 1];
    }
  }

  lemma {:induction false} ExecuteConcat(db: Database, a: seq<Statement>, b: seq<Statement>)
    ensures Execute(db, a + b) == match Execute(db, a) case None => None case Some(mid) => Execute(mid, b)
  {
    if b == [] {
      assert a + b == a;
    } else {
      ExecuteConcat(db, a, b[..|b| - 1]);
      assert (a + b)[..|a + b| - 1] == a + b[..|b| - 1];
    }
  }

  function OnTables(table: string, es: seq<Edit>): seq<Statement> {
    seq(|es|, i requires 0 <= i < |es| => OnTable(table, es[i]))
  }

  /** Edits of a table are edits of the database. */
  lemma {:induction false} EditsInDatabase(db: Database, table: string, es: seq<Edit>)
    requires table in db
    ensures Execute(db, OnTables(table, es))
         == match ApplyEdits(table, db[table], es) case None => None case Some(st) => Some(db[table := st])
  {
    if es == [] {
      assert db[table := db[table]] == db;
    } else {
      EditsInDatabase(db, table, es[..|es| - 1]);
      assert OnTables(table, es)[..|es| - 1] == OnTables(table, es[..|es| - 1]);
      match ApplyEdits(table, db[table], es[..|es| - 1])
      case None =>
      case Some(st) => EditTwice(db, table, st, es[|es| - 1]);
    }
  }

  lemma EditTwice(db: Database, table: string, st: State, e: Edit)
    ensures Apply(db[table := st], OnTable(table, e))
         == match ApplyEdit(table, st, e) case None => None case Some(after) => Some(db[table := after])
  {
    match ApplyEdit(table, st, e)
    case None =>
    case Some(after) => assert db[table := st][table := after] == db[table := after];
  }
}
