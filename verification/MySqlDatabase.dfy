/** The statements a MySQL migration consists of, and a database that executes them: it
    refuses to touch what does not exist, to create what does, and to remove what is
    still referenced. What MySQL does about the indexes that foreign keys need is left to MySqlServer. */
module MySqlDatabase {
  import opened Common
  import opened Catalogs

  /** The clauses of one ALTER TABLE. */
  datatype Clause =
    | DropConstraint(name: string)
    | DropIndex(name: string)
    | DropColumn(name: string)
    | AddColumn(column: Column)
    | ModifyColumn(column: Column)
    | AddIndex(index: Index)
    | AddConstraint(constraint: Constraint)

  datatype Statement =
    | DropForeignKey(table: TableID, name: string)
    | DropSchemaIfExists(schema: string)
    | CreateSchemaIfNotExists(schema: string)
    | DropTableIfExists(table: TableID)
    | CreateTable(table: TableID, columns: seq<Column>, constraints: seq<Constraint>)
    | CreateIndex(table: TableID, index: Index)
    | AlterTable(table: TableID, clauses: seq<Clause>)
    | AddForeignKey(table: TableID, constraint: Constraint)

  datatype TableState = TableState(
    columns: map<string, ColumnDef>,
    constraints: map<string, ConstraintDef>,
    indexes: map<string, IndexDef>)

  datatype Database = Database(schemas: set<string>, tables: map<TableID, TableState>)

  // ----- one table -----

  predicate Has(ts: TableState, columns: seq<string>) {
    forall c :: c in columns ==> c in ts.columns
  }

  predicate ColumnUsed(ts: TableState, column: string) {
    UsedIn(ts.constraints, ts.indexes, column)
  }

  predicate UsedIn(constraints: map<string, ConstraintDef>, indexes: map<string, IndexDef>, column: string) {
    || (exists n :: n in constraints && column in constraints[n].columns)
    || (exists n :: n in indexes && column in indexes[n].columns)
  }

  predicate IsKeyDef(c: ConstraintDef) {
    c.constraintType == PrimaryKey || c.constraintType == Unique
  }

  predicate IsPrimaryKey(ts: TableState, n: string) {
    n in ts.constraints && ts.constraints[n].constraintType == PrimaryKey
  }

  predicate HasPrimaryKey(ts: TableState) {
    exists n :: n in ts.constraints && IsPrimaryKey(ts, n)
  }

  predicate OnePrimaryKey(ts: TableState) {
    forall n, k :: n in ts.constraints && k in ts.constraints && IsPrimaryKey(ts, n) && IsPrimaryKey(ts, k) ==> n == k
  }

  /** MySQL writes no identity clause, so none is stored. */
  function StoredColumn(c: ColumnDef): ColumnDef {
    c.(identity := "")
  }

  /** One clause; None if MySQL refuses it. */
  function Apply(clause: Clause, ts: TableState): Option<TableState> {
    match clause
    case DropConstraint(n) =>
      if n in ts.constraints && IsKeyDef(ts.constraints[n]) then Some(ts.(constraints := ts.constraints - {n}))
          else None
    case DropIndex(n) =>
      if n in ts.indexes then Some(ts.(indexes := ts.indexes - {n})) else None
    case DropColumn(n) =>
      if n in ts.columns && !ColumnUsed(ts, n) then Some(ts.(columns := ts.columns - {n})) else None
    case AddColumn(c) =>
      if c.name !in ts.columns then Some(ts.(columns := ts.columns[c.name := StoredColumn(c.def)])) else None
    case ModifyColumn(c) =>
      if c.name in ts.columns then Some(ts.(columns := ts.columns[c.name := StoredColumn(c.def)])) else None
    case AddIndex(i) =>
      if i.name !in ts.indexes && Has(ts, i.def.columns) then Some(ts.(indexes := ts.indexes[i.name := i.def]))
          else None
    case AddConstraint(c) =>
      if c.name !in ts.constraints && IsKeyDef(c.def) && Has(ts, c.def.columns)
         && (c.def.constraintType == PrimaryKey ==> !HasPrimaryKey(ts))
      then Some(ts.(constraints := ts.constraints[c.name := c.def])) else None
  }

  function ApplyAll(clauses: seq<Clause>, ts: TableState): Option<TableState> {
    if clauses == [] then Some(ts)
    else
      match ApplyAll(clauses[..|clauses| - 1], ts)
      case None => None
      case Some(mid) => Apply(clauses[|clauses| - 1], mid)
  }

  /** The table has a primary key, a unique constraint or a unique index on exactly the columns. */
  predicate HasKeyOn(ts: TableState, columns: seq<string>) {
    || (exists n :: n in ts.constraints && IsKeyDef(ts.constraints[n]) && ts.constraints[n].columns == columns)
    || (exists n :: n in ts.indexes && ts.indexes[n].isUnique && ts.indexes[n].columns == columns)
  }

  // ----- the whole database -----

  /** Constraint n of table t is a foreign key to table u. */
  predicate References(db: Database, t: TableID, n: string, u: TableID) {
    t in db.tables && n in db.tables[t].constraints
    && db.tables[t].constraints[n].constraintType == ForeignKey && db.tables[t].constraints[n].references == u
  }

  /** What a foreign key to this table needs: the referenced columns, and a key on them. */
  predicate Supports(ts: TableState, columns: seq<string>) {
    Has(ts, columns) && HasKeyOn(ts, columns)
  }

  ghost predicate Supported(db: Database, u: TableID)
    requires u in db.tables
  {
    forall t, n :: References(db, t, n, u) ==> Supports(db.tables[u], db.tables[t].constraints[n].referencesColumns)
  }

  /** The columns of a new table, and its constraints other than foreign keys. */
  function NewState(columns: seq<Column>, constraints: seq<Constraint>): TableState {
    TableState(StoredColumns(columns), Live(constraints), map[])
  }

  function StoredColumns(columns: seq<Column>): map<string, ColumnDef> {
    map n | n in Live(columns) :: StoredColumn(Live(columns)[n])
  }

  lemma StoredLast(m: map<string, ColumnDef>, xs: seq<Column>)
    requires xs != [] && Plain(xs)
    ensures var init, last := xs[..|xs| - 1], xs[|xs| - 1];
      && (m + StoredColumns(init))[last.name := StoredColumn(last.def)] == m + StoredColumns(xs)
      && Names(init) <= Names(xs) && last.name in Names(xs) && Plain(init)
      && (last.name !in m ==> last.name !in m + StoredColumns(init))
  {
    WithLast(map[], xs);
  }

  /** One statement; None if MySQL refuses it. */
  ghost function Execute(s: Statement, db: Database): Option<Database> {
    match s
    case DropForeignKey(t, n) =>
      if t in db.tables && n in db.tables[t].constraints && db.tables[t].constraints[n].constraintType == ForeignKey
      then Some(db.(tables := db.tables[t := db.tables[t].(constraints := db.tables[t].constraints - {n})]))
      else None
    case DropSchemaIfExists(schema) =>
      if exists t, n, u :: References(db, t, n, u) && t.schema != schema && u.schema == schema then None
      else Some(Database(db.schemas - {schema}, map t | t in db.tables && t.schema != schema :: db.tables[t]))
    case CreateSchemaIfNotExists(schema) =>
      Some(db.(schemas := db.schemas + {schema}))
    case DropTableIfExists(u) =>
      if exists t, n :: References(db, t, n, u) && t != u then None
      else Some(db.(tables := db.tables - {u}))
    case CreateTable(t, columns, constraints) =>
      var ts := NewState(columns, constraints);
      if t.schema in db.schemas && t !in db.tables
         && OnePrimaryKey(ts) && forall n :: n in ts.constraints ==> Has(ts, ts.constraints[n].columns)
      then Some(db.(tables := db.tables[t := ts]))
      else None
    case CreateIndex(t, index) =>
      if t in db.tables then
        match Apply(AddIndex(index), db.tables[t])
        case None => None
        case Some(ts) => Some(db.(tables := db.tables[t := ts]))
      else None
    case AlterTable(t, clauses) =>
      if t in db.tables then
        match ApplyAll(clauses, db.tables[t])
        case None => None
        case Some(ts) =>
          var next := db.(tables := db.tables[t := ts]);
          if Supported(next, t) then Some(next) else None
      else None
    case AddForeignKey(t, c) =>
      if t in db.tables && c.name !in db.tables[t].constraints && c.def.constraintType == ForeignKey
         && Has(db.tables[t], c.def.columns)
         && c.def.references in db.tables && Supports(db.tables[c.def.references], c.def.referencesColumns)
      then Some(db.(tables := db.tables[t := db.tables[t].(constraints := db.tables[t].constraints[c.name := c.def])]))
      else None
  }

  ghost function ExecuteAll(ss: seq<Statement>, db: Database): Option<Database> {
    if ss == [] then Some(db)
    else
      match ExecuteAll(ss[..|ss| - 1], db)
      case None => None
      case Some(mid) => Execute(ss[|ss| - 1], mid)
  }

  lemma {:induction false} ExecuteAllConcat(a: seq<Statement>, b: seq<Statement>, db: Database)
    ensures ExecuteAll(a + b, db) ==
            match ExecuteAll(a, db) case None => None case Some(mid) => ExecuteAll(b, mid)
  {
    if b == [] {
      assert a + b == a;
    } else {
      ExecuteAllConcat(a, b[..|b| - 1], db);
      assert (a + b)[..|a + b| - 1] == a + b[..|b| - 1];
    }
  }

  lemma ApplyAllSnoc(clauses: seq<Clause>, clause: Clause, ts: TableState, mid: TableState)
    requires ApplyAll(clauses, ts) == Some(mid)
    ensures ApplyAll(clauses + [clause], ts) == Apply(clause, mid)
  {
    assert (clauses + [clause])[..|clauses|] == clauses;
  }

  lemma {:induction false} ApplyAllConcat(a: seq<Clause>, b: seq<Clause>, ts: TableState)
    ensures ApplyAll(a + b, ts) ==
            match ApplyAll(a, ts) case None => None case Some(mid) => ApplyAll(b, mid)
  {
    if b == [] {
      assert a + b == a;
    } else {
      ApplyAllConcat(a, b[..|b| - 1], ts);
      assert (a + b)[..|a + b| - 1] == a + b[..|b| - 1];
    }
  }
}
