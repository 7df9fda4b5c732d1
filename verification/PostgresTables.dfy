/** Postgres tables with their rows, and the statements that add checks, keys and foreign keys to them,
    at once or in stages. */
module PostgresTables {
  import opened Common

  /** No value is a null. */
  type Record = map<string, Option<string>>

  function Get(r: Record, c: string): Option<string> {
    if c in r then r[c] else None
  }

  datatype KeyType = PrimaryKey | Unique

  /** When a constraint is enforced. */
  datatype Timing = NotDeferrable | Deferrable | InitiallyDeferred

  datatype Reference = Reference(columns: seq<string>, table: TableID, referenced: seq<string>, timing: Timing)

  datatype Constraint =
    | NotNullCheck(column: string, valid: bool)
    | Key(keyType: KeyType, keyColumns: seq<string>, timing: Timing)
    | ForeignKey(reference: Reference, valid: bool)

  datatype Index = Index(isUnique: bool, columns: seq<string>)

  datatype Column = Column(columnType: string, collation: string, default: string, notNull: bool, identity: bool)

  /** Indexes that belong to a key are not among the indexes. */
  datatype Table = Table(
    columns: map<string, Column>,
    constraints: map<string, Constraint>,
    indexes: map<string, Index>,
    rows: seq<Record>)

  type Database = map<TableID, Table>

  // ----- rows -----

  predicate HasNull(t: Table, c: string) {
    exists i :: 0 <= i < |t.rows| && Get(t.rows[i], c) == None
  }

  predicate AnyNull(t: Table, cs: seq<string>) {
    exists k :: 0 <= k < |cs| && HasNull(t, cs[k])
  }

  predicate SameValues(r: Record, cs: seq<string>, s: Record, ds: seq<string>)
    requires |cs| == |ds|
  {
    forall k :: 0 <= k < |cs| ==> Get(r, cs[k]).Some? && Get(r, cs[k]) == Get(s, ds[k])
  }

  predicate HasDuplicates(t: Table, cs: seq<string>) {
    exists i, k :: 0 <= i < k < |t.rows| && SameValues(t.rows[i], cs, t.rows[k], cs)
  }

  predicate HasParent(r: Record, reference: Reference, parents: seq<Record>)
    requires |reference.columns| == |reference.referenced|
  {
    || (exists k :: 0 <= k < |reference.columns| && Get(r, reference.columns[k]) == None)
    || (exists i :: 0 <= i < |parents| && SameValues(r, reference.columns, parents[i], reference.referenced))
  }

  /** Some row refers to no row of the other table. */
  predicate Dangling(db: Database, id: TableID, reference: Reference)
    requires id in db && reference.table in db && |reference.columns| == |reference.referenced|
  {
    exists i :: 0 <= i < |db[id].rows| && !HasParent(db[id].rows[i], reference, db[reference.table].rows)
  }

  // ----- changes to one table -----

  /** Changes to one property of a column. A collation that is given must have a name. */
  datatype Change =
    | SetType(columnType: string, collation: Option<string>)
    | SetDefault(default: string)
    | DropDefault
    | DropNotNull
    | AddIdentity
    | DropIdentity

  datatype Edit =
    | AlterColumn(column: string, change: Change)
    | AddNotNullCheck(name: string, column: string)
    | ValidateCheck(name: string)
    | DropConstraint(name: string)
    | SetNotNull(column: string)
    | CreateIndex(name: string, index: Index)
    | AddKeyUsingIndex(name: string, keyType: KeyType)
    | AddKey(name: string, keyType: KeyType, columns: seq<string>, timing: Timing)

  const DEFAULT_COLLATION := "default"

  /** An identity column has no default and no nulls, and neither has a column of a primary key nulls. */
  function Changed(c: Column, isKey: bool, change: Change): Option<Column> {
    match change
    case SetType(columnType, collation) =>
      if collation == Some("") then None
      else Some(c.(columnType := columnType, collation := if collation.Some? then collation.value
          else DEFAULT_COLLATION))
    case SetDefault(d) => if c.identity then None else Some(c.(default := d))
    case DropDefault => if c.identity then None else Some(c.(default := ""))
    case DropNotNull => if c.identity || isKey then None else Some(c.(notNull := false))
    case AddIdentity => if c.identity || !c.notNull || c.default != "" then None else Some(c.(identity := true))
    case DropIdentity => if c.identity then Some(c.(identity := false)) else None
  }

  predicate InPrimaryKey(t: Table, c: string) {
    exists n :: n in t.constraints && t.constraints[n].Key? && t.constraints[n].keyType == PrimaryKey
                && c in t.constraints[n].keyColumns
  }

  function NotNull(columns: map<string, Column>, cs: seq<string>): map<string, Column> {
    map c | c in columns :: if c in cs then columns[c].(notNull := true) else columns[c]
  }

  /** A name is free for a relation: neither an index nor an index of a key has it. */
  predicate FreeForIndex(t: Table, name: string) {
    name !in t.indexes && !(name in t.constraints && t.constraints[name].Key?)
  }

  predicate HasPrimaryKey(t: Table) {
    exists n :: n in t.constraints && t.constraints[n].Key? && t.constraints[n].keyType == PrimaryKey
  }

  predicate HasColumns(t: Table, cs: seq<string>) {
    forall k :: 0 <= k < |cs| ==> cs[k] in t.columns
  }

  /** A name is taken, or there is a primary key already, or a null in what is to be one. */
  predicate KeyRefused(t: Table, name: string, keyType: KeyType, columns: seq<string>) {
    name in t.constraints || (keyType == PrimaryKey && (HasPrimaryKey(t) || AnyNull(t, columns)))
  }

  /** The table with a key. The columns of a primary key lose their nulls. */
  function WithKey(t: Table, name: string, keyType: KeyType, columns: seq<string>, timing: Timing): Option<Table> {
    if KeyRefused(t, name, keyType, columns) then None
    else Some(t.(
      constraints := t.constraints[name := Key(keyType, columns, timing)],
      columns := if keyType == PrimaryKey then NotNull(t.columns, columns) else t.columns))
  }

  /** A constraint that takes over an index is not deferrable unless it says so. */
  function ApplyEdit(t: Table, e: Edit): Option<Table> {
    match e
    case AlterColumn(c, change) =>
      if c !in t.columns then None
      else
        (match Changed(t.columns[c], InPrimaryKey(t, c), change)
         case None => None
         case Some(column) => Some(t.(columns := t.columns[c := column])))
    case AddNotNullCheck(n, c) =>
      if n in t.constraints || c !in t.columns then None
      else Some(t.(constraints := t.constraints[n := NotNullCheck(c, false)]))
    case ValidateCheck(n) =>
      if n !in t.constraints || !t.constraints[n].NotNullCheck? || HasNull(t, t.constraints[n].column) then None
      else Some(t.(constraints := t.constraints[n := NotNullCheck(t.constraints[n].column, true)]))
    case DropConstraint(n) => if n in t.constraints then Some(t.(constraints := t.constraints - {n})) else None
    case SetNotNull(c) =>
      if c !in t.columns || HasNull(t, c) then None else Some(t.(columns := NotNull(t.columns, [c])))
    case CreateIndex(n, x) =>
      if !FreeForIndex(t, n) || !HasColumns(t, x.columns) || (x.isUnique && HasDuplicates(t, x.columns)) then None
      else Some(t.(indexes := t.indexes[n := x]))
    case AddKeyUsingIndex(n, keyType) =>
      if n in t.indexes && t.indexes[n].isUnique
      then WithKey(t.(indexes := t.indexes - {n}), n, keyType, t.indexes[n].columns, NotDeferrable)
      else None
    case AddKey(n, keyType, columns, timing) =>
      if !FreeForIndex(t, n) || !HasColumns(t, columns) || HasDuplicates(t, columns) then None
      else WithKey(t, n, keyType, columns, timing)
  }

  /** One edit after another, if none is refused. */
  function ApplyEdits(t: Table, es: seq<Edit>): Option<Table>
    decreases |es|
  {
    if es == [] then Some(t)
    else match ApplyEdit(t, es[0])
      case None => None
      case Some(after) => ApplyEdits(after, es[1..])
  }

  lemma ApplyTwo(t: Table, a: Edit, b: Edit)
    ensures ApplyEdits(t, [a, b]) == match ApplyEdit(t, a) case None => None case Some(mid) => ApplyEdit(mid, b)
  {
    assert [a, b][1..] == [b] && [b][1..] == [];
    match ApplyEdit(t, a)
    case None =>
    case Some(mid) =>
      match ApplyEdit(mid, b)
      case None =>
      case Some(after) => assert ApplyEdits(after, []) == Some(after);
  }

  lemma ApplyThree(t: Table, a: Edit, b: Edit, c: Edit)
    ensures ApplyEdits(t, [a, b, c])
         == match ApplyEdit(t, a) case None => None case Some(mid) => ApplyEdits(mid, [b, c])
  {
    assert [a, b, c][1..] == [b, c];
  }

  // ----- changes to a database -----

  datatype Statement =
    | OnTable(table: TableID, edit: Edit)
    | AddForeignKey(table: TableID, name: string, reference: Reference, valid: bool)
    | ValidateForeignKey(table: TableID, name: string)

  /** The columns that are referred to are a key, which must not be deferrable. */
  predicate IsKey(t: Table, columns: seq<string>) {
    exists n :: n in t.constraints && IsKeyOn(t.constraints[n], columns)
  }

  predicate IsKeyOn(c: Constraint, columns: seq<string>) {
    c.Key? && c.timing == NotDeferrable && multiset(c.keyColumns) == multiset(columns)
  }

  predicate Referable(db: Database, id: TableID, reference: Reference) {
    && id in db && HasColumns(db[id], reference.columns)
    && |reference.columns| == |reference.referenced|
    && reference.table in db && IsKey(db[reference.table], reference.referenced)
  }

  function Put(db: Database, id: TableID, name: string, c: Constraint): Database
    requires id in db
  {
    db[id := db[id].(constraints := db[id].constraints[name := c])]
  }

  function Apply(db: Database, s: Statement): Option<Database> {
    match s
    case OnTable(id, e) =>
      if id !in db then None
      else (match ApplyEdit(db[id], e) case None => None case Some(t) => Some(db[id := t]))
    case AddForeignKey(id, n, reference, valid) =>
      if !Referable(db, id, reference) || n in db[id].constraints || (valid && Dangling(db, id, reference)) then None
      else Some(Put(db, id, n, ForeignKey(reference, valid)))
    case ValidateForeignKey(id, n) =>
      if id !in db || n !in db[id].constraints || !db[id].constraints[n].ForeignKey? then None
      else
        var reference := db[id].constraints[n].reference;
        if !Referable(db, id, reference) || Dangling(db, id, reference) then None
        else Some(Put(db, id, n, ForeignKey(reference, true)))
  }

  function Execute(db: Database, ss: seq<Statement>): Option<Database>
    decreases |ss|
  {
    if ss == [] then Some(db)
    else match Apply(db, ss[0])
      case None => None
      case Some(after) => Execute(after, ss[1..])
  }

  lemma {:induction false} EditsConcat(t: Table, a: seq<Edit>, b: seq<Edit>)
    ensures ApplyEdits(t, a + b) == match ApplyEdits(t, a) case None => None case Some(mid) => ApplyEdits(mid, b)
    decreases |a|
  {
    if a == [] {
      assert a + b == b;
    } else {
      assert (a + b)[0] == a[0] && (a + b)[1..] == a[1..] + b;
      match ApplyEdit(t, a[0])
      case None =>
      case Some(after) => EditsConcat(after, a[1..], b);
    }
  }

  lemma {:induction false} ExecuteConcat(db: Database, a: seq<Statement>, b: seq<Statement>)
    ensures Execute(db, a + b) == match Execute(db, a) case None => None case Some(mid) => Execute(mid, b)
    decreases |a|
  {
    if a == [] {
      assert a + b == b;
    } else {
      assert (a + b)[0] == a[0] && (a + b)[1..] == a[1..] + b;
      match Apply(db, a[0])
      case None =>
      case Some(after) => ExecuteConcat(after, a[1..], b);
    }
  }

  function OnTables(id: TableID, es: seq<Edit>): seq<Statement> {
    seq(|es|, i requires 0 <= i < |es| => OnTable(id, es[i]))
  }

  /** Edits of a table are edits of the database. */
  lemma {:induction false} EditsInDatabase(db: Database, id: TableID, es: seq<Edit>)
    requires id in db
    ensures Execute(db, OnTables(id, es))
        == match ApplyEdits(db[id], es) case None => None case Some(t) => Some(db[id := t])
    decreases |es|
  {
    if es == [] {
      assert db[id := db[id]] == db;
    } else {
      assert OnTables(id, es)[1..] == OnTables(id, es[1..]);
      match ApplyEdit(db[id], es[0])
      case None =>
      case Some(t) =>
        EditsInDatabase(db[id := t], id, es[1..]);
        match ApplyEdits(t, es[1..])
        case None =>
        case Some(u) => assert db[id := t][id := u] == db[id := u];
    }
  }
}
