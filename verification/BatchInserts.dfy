/** Inserting rows in batches: how large a batch may be, the statements that carry the rows, and
    what a database makes of them. */
module BatchInserts {
  import opened Common

  datatype Dialect = SQLite | Postgres | MySQL | SQLServer | OtherDialect

  datatype Value = Null | Known(text: string)

  /** Values in the order of the columns of an insert. */
  type Values = seq<Value>

  type Record = map<string, Value>

  datatype BatchInsert = BatchInsert(
    batchsize: int,
    dialect: Dialect,
    columns: seq<string>,
    keyColumns: seq<string>,
    identityColumns: seq<string>)
  {
    /** The key columns, which are dropped altogether if one of them is not inserted. */
    function Keys(): seq<string> {
      if forall k :: k in keyColumns ==> k in columns then keyColumns else []
    }

    predicate Upserts() {
      Keys() != [] && dialect != OtherDialect
    }

    predicate NonKey(c: string) {
      c in columns && c !in Keys()
    }

    /** The columns that are set in a record that is there already. */
    predicate Sets(c: string) {
      NonKey(c) && !(dialect == SQLServer && c in identityColumns)
    }

    predicate HasNonKeys() {
      exists c :: c in columns && NonKey(c)
    }

    /** SQL Server has two statements for a batch: one that updates, and one that inserts. */
    predicate NeedsUpdate() {
      Keys() != [] && HasNonKeys() && dialect == SQLServer
    }
  }

  // ----- the size of a batch -----

  /** How many parameters a statement may have, 0 if that is not known. */
  function ParamLimit(d: Dialect): nat {
    match d
    case SQLite => 32766
    case Postgres => 65535
    case MySQL => 65535
    case SQLServer => 2100
    case OtherDialect => 0
  }

  method BatchSize(bi: BatchInsert) returns (batchsize: int)
    requires bi.columns != []
    ensures batchsize == Size(bi)
    ensures bi.dialect == SQLServer ==> batchsize <= 25
    ensures bi.batchsize > 0 ==> batchsize <= bi.batchsize
    ensures ParamLimit(bi.dialect) > 0 && batchsize >= 1 ==>
              batchsize * |bi.columns| + |bi.columns| <= ParamLimit(bi.dialect)
    ensures ParamLimit(bi.dialect) > 0 ==> (batchsize >= 1 <==> 2 * |bi.columns| <= ParamLimit(bi.dialect))
  {
    if ParamLimit(bi.dialect) > 0 {
      SizeFitsExactly(bi);
    }
    batchsize := bi.batchsize;
    if batchsize <= 0 {
      batchsize := 500;
    }
    if bi.dialect == SQLServer && batchsize > 25 {
      batchsize := 25;
    }
    var paramlimit := ParamLimit(bi.dialect);
    if paramlimit > 0 {
      var maxBatchsize := paramlimit / |bi.columns| - 1;
      if batchsize > maxBatchsize {
        batchsize := maxBatchsize;
      }
    }
  }

  function Min(a: int, b: int): int {
    if a < b then a else b
  }

  function Size(bi: BatchInsert): int
    requires bi.columns != []
  {
    var wanted := if bi.batchsize <= 0 then 500 else bi.batchsize;
    var capped := if bi.dialect == SQLServer then Min(wanted, 25) else wanted;
    if ParamLimit(bi.dialect) == 0 then capped else Min(capped, ParamLimit(bi.dialect) / |bi.columns| - 1)
  }

  /** A batch holds a row exactly if two rows are within the limit, and its parameters then are
      within it with those of a row to spare. */
  lemma SizeFitsExactly(bi: BatchInsert)
    requires bi.columns != [] && ParamLimit(bi.dialect) > 0
    ensures Size(bi) >= 1 <==> 2 * |bi.columns| <= ParamLimit(bi.dialect)
    ensures Size(bi) >= 1 ==> Size(bi) * |bi.columns| + |bi.columns| <= ParamLimit(bi.dialect)
  {
    var n, q := |bi.columns|, ParamLimit(bi.dialect) / |bi.columns|;
    Quotient(ParamLimit(bi.dialect), n);
    if Size(bi) >= 1 {
      Monotone(Size(bi) + 1, q, n);
    }
  }

  lemma Monotone(a: nat, b: nat, n: nat)
    requires a <= b
    ensures a * n <= b * n
  {
  }

  lemma Quotient(limit: nat, n: nat)
    requires n > 0
    ensures limit / n * n <= limit && (limit / n >= 2 <==> 2 * n <= limit)
  {
    var q := limit / n;
    assert limit == q * n + limit % n;
    if q >= 2 {
      Monotone(2, q, n);
    } else {
      Monotone(q, 1, n);
    }
  }

  // ----- placeholders -----

  datatype Placeholder = Numbered(number: nat) | Next

  function PlaceholderAt(d: Dialect, number: nat): Placeholder {
    if d == Postgres || d == SQLServer then Numbered(number) else Next
  }

  /** The placeholders of one row, numbered from the one after some others. */
  function RowPlaceholders(d: Dialect, before: nat, numFields: nat): seq<Placeholder> {
    seq(numFields, j requires 0 <= j < numFields => PlaceholderAt(d, before + j + 1))
  }

  function Placeholders(d: Dialect, before: nat, batchsize: nat, numFields: nat): seq<seq<Placeholder>>
    decreases batchsize
  {
    if batchsize == 0 then []
    else [RowPlaceholders(d, before, numFields)] + Placeholders(d, before + numFields, batchsize - 1, numFields)
  }

  lemma {:induction false} PlaceholdersSnoc(d: Dialect, before: nat, batchsize: nat, numFields: nat)
    ensures Placeholders(d, before, batchsize + 1, numFields)
         == Placeholders(d, before, batchsize,
                         numFields) + [RowPlaceholders(d, before + batchsize * numFields, numFields)]
    decreases batchsize
  {
    if batchsize == 0 {
    } else {
      PlaceholdersSnoc(d, before + numFields, batchsize - 1, numFields);
      assert before + numFields + (batchsize - 1) * numFields == before + batchsize * numFields;
    }
  }

  /** Nothing is written for a batch that holds no row. */
  method WriteRowValues(d: Dialect, batchsize: int, numFields: nat) returns (buf: seq<seq<Placeholder>>)
    ensures buf == Placeholders(d, 0, if batchsize < 0 then 0 else batchsize, numFields)
  {
    buf := [];
    var counter: nat := 0;
    var i := 0;
    while i < batchsize
      invariant 0 <= i && (i <= batchsize || i == 0)
      invariant counter == i * numFields && buf == Placeholders(d, 0, i, numFields)
    {
      var row: seq<Placeholder> := [];
      for j := 0 to numFields
        invariant counter == i * numFields + j && row == RowPlaceholders(d, i * numFields, j)
      {
        counter := counter + 1;
        row := row + [PlaceholderAt(d, counter)];
      }
      PlaceholdersSnoc(d, 0, i, numFields);
      buf := buf + [row];
      i := i + 1;
    }
  }

  function Count(middle: seq<seq<Placeholder>>): nat {
    if middle == [] then 0 else |middle[0]| + Count(middle[1..])
  }

  /** The value of a placeholder: by its number, or by its place among all of them. */
  function Bound(p: Placeholder, place: nat, args: Values): Value {
    var i: int := match p case Numbered(n) => n - 1 case Next => place;
    if 0 <= i < |args| then args[i] else Null
  }

  /** The rows that a database reads from the placeholders and the arguments. */
  function Bind(middle: seq<seq<Placeholder>>, place: nat, args: Values): seq<Values> {
    if middle == [] then []
    else
      var row := middle[0];
      [BoundRow(row, place, args)] + Bind(middle[1..], place + |row|, args)
  }

  /** The arguments of some rows, one row after another. */
  function Args(rows: seq<Values>): Values {
    if rows == [] then [] else rows[0] + Args(rows[1..])
  }

  lemma {:induction false} ArgsConcat(a: seq<Values>, b: seq<Values>)
    ensures Args(a + b) == Args(a) + Args(b)
  {
    if a == [] {
      assert a + b == b;
    } else {
      assert (a + b)[1..] == a[1..] + b;
      ArgsConcat(a[1..], b);
    }
  }

  /** The values of a row, as a database reads them. */
  function BoundRow(row: seq<Placeholder>, place: nat, args: Values): Values {
    seq(|row|, j requires 0 <= j < |row| => Bound(row[j], place + j, args))
  }

  lemma RowIsRead(d: Dialect, place: nat, row: Values, args: Values)
    requires place + |row| <= |args| && args[place..place + |row|] == row
    ensures BoundRow(RowPlaceholders(d, place, |row|), place, args) == row
  {
    var places := RowPlaceholders(d, place, |row|);
    forall j | 0 <= j < |row| ensures Bound(places[j], place + j, args) == row[j] {
      assert places[j] == PlaceholderAt(d, place + j + 1);
      assert args[place + j] == args[place..place + |row|][j];
    }
  }

  lemma Shift(args: Values, place: nat, row: Values, rest: Values)
    requires place <= |args| && args[place..] == row + rest
    ensures place + |row| <= |args| && args[place..place + |row|] == row && args[place + |row|..] == rest
  {
    assert |args[place..]| == |row| + |rest|;
    assert args[place..place + |row|] == args[place..][..|row|];
    assert args[place + |row|..] == args[place..][|row|..];
  }

  /** What the database reads is what was to be inserted. */
  lemma {:induction false} BindReadsRows(d: Dialect, place: nat, args: Values, rows: seq<Values>, n: nat)
    requires forall i :: 0 <= i < |rows| ==> |rows[i]| == n
    requires place <= |args| && args[place..] == Args(rows)
    ensures Bind(Placeholders(d, place, |rows|, n), place, args) == rows
    decreases |rows|
  {
    if rows == [] {
    } else {
      var row, rest := rows[0], rows[1..];
      Shift(args, place, row, Args(rest));
      BindReadsRows(d, place + n, args, rest, n);
      RowIsRead(d, place, row, args);
      BindFirst(d, place, |rows|, n, args);
      assert [row] + rest == rows;
    }
  }

  lemma BindFirst(d: Dialect, place: nat, k: nat, n: nat, args: Values)
    requires k > 0
    ensures Bind(Placeholders(d, place, k, n), place, args)
         == [BoundRow(RowPlaceholders(d, place, n), place, args)] + Bind(Placeholders(d, place + n, k - 1, n),
             place + n, args)
  {
    var middle := Placeholders(d, place, k, n);
    assert middle[0] == RowPlaceholders(d, place, n) && middle[1..] == Placeholders(d, place + n, k - 1, n);
  }

  /** There are as many placeholders as arguments. */
  lemma {:induction false} OnePlaceholderEach(d: Dialect, before: nat, rows: seq<Values>, n: nat)
    requires forall i :: 0 <= i < |rows| ==> |rows[i]| == n
    ensures Count(Placeholders(d, before, |rows|, n)) == |Args(rows)| == |rows| * n
    decreases |rows|
  {
    if rows == [] {
    } else {
      OnePlaceholderEach(d, before + n, rows[1..], n);
      var middle := Placeholders(d, before, |rows|, n);
      assert |middle[0]| == n && middle[1..] == Placeholders(d, before + n, |rows| - 1, n);
      assert |rows[0]| == n && |rows| * n == n + (|rows| - 1) * n;
    }
  }

  // ----- what statements do -----

  datatype Table = Table(defaults: Record, records: seq<Record>)

  function Get(r: Record, c: string): Value {
    if c in r then r[c] else Null
  }

  /** A record with some of its columns set. */
  function Put(r: Record, columns: seq<string>, row: Values, chosen: string -> bool): Record
    requires |row| == |columns|
  {
    if columns == [] then r
    else
      var k := |columns| - 1;
      var before := Put(r, columns[..k], row[..k], chosen);
      if chosen(columns[k]) then before[columns[k] := row[k]] else before
  }

  function Everything(c: string): bool {
    true
  }

  function Inserted(bi: BatchInsert, defaults: Record, row: Values): Record
    requires |row| == |bi.columns|
  {
    Put(defaults, bi.columns, row, Everything)
  }

  /** The record has been updated from the row. */
  function Updated(bi: BatchInsert, r: Record, row: Values): Record
    requires |row| == |bi.columns|
  {
    Put(r, bi.columns, row, c => bi.Sets(c))
  }

  /** Two records have the same key, which no null is equal to. */
  predicate SameKey(bi: BatchInsert, r: Record, s: Record) {
    bi.Keys() != [] && forall k :: k in bi.Keys() ==> Get(r, k) == Get(s, k) && Get(r, k) != Null
  }

  /** The record has the key of the row. */
  predicate Matches(bi: BatchInsert, r: Record, row: Values)
    requires |row| == |bi.columns|
  {
    SameKey(bi, r, Inserted(bi, map[], row))
  }

  predicate Aligned(bi: BatchInsert, rows: seq<Values>) {
    forall i :: 0 <= i < |rows| ==> |rows[i]| == |bi.columns|
  }

  /** The row before which a record gives way, the last one that has its key. */
  function Rewritten(bi: BatchInsert, r: Record, rows: seq<Values>): Record
    requires Aligned(bi, rows)
  {
    if rows == [] then r
    else
      var last := rows[|rows| - 1];
      if Matches(bi, r, last) then Updated(bi, r, last) else Rewritten(bi, r, rows[..|rows| - 1])
  }

  function RewrittenAll(bi: BatchInsert, records: seq<Record>, rows: seq<Values>): seq<Record>
    requires Aligned(bi, rows)
  {
    seq(|records|, i requires 0 <= i < |records| => Rewritten(bi, records[i], rows))
  }

  predicate Taken(bi: BatchInsert, records: seq<Record>, row: Values)
    requires |row| == |bi.columns|
  {
    exists i :: 0 <= i < |records| && Matches(bi, records[i], row)
  }

  /** One row: the record of its key is updated, or the row is inserted. */
  function Upsert(bi: BatchInsert, t: Table, row: Values): Table
    requires |row| == |bi.columns|
  {
    if Taken(bi, t.records, row)
    then t.(records := RewrittenAll(bi, t.records, [row]))
    else t.(records := t.records + [Inserted(bi, t.defaults, row)])
  }

  /** One row after another. */
  function UpsertAll(bi: BatchInsert, t: Table, rows: seq<Values>): Table
    requires Aligned(bi, rows)
  {
    if rows == [] then t else Upsert(bi, UpsertAll(bi, t, rows[..|rows| - 1]), rows[|rows| - 1])
  }

  /** The records of the rows whose key is not in a table. */
  function Missing(bi: BatchInsert, t: Table, rows: seq<Values>): seq<Record>
    requires Aligned(bi, rows)
  {
    if rows == [] then []
    else
      var last := rows[|rows| - 1];
      Missing(bi, t, rows[..|rows| - 1])
      + if Taken(bi, t.records, last) then [] else [Inserted(bi, t.defaults, last)]
  }

  predicate Distinct(bi: BatchInsert, records: seq<Record>) {
    forall i, k :: 0 <= i < k < |records| ==> !SameKey(bi, records[i], records[k])
  }

  predicate DistinctKeys(bi: BatchInsert, rows: seq<Values>)
    requires Aligned(bi, rows)
  {
    forall i, k :: 0 <= i < k < |rows| ==> !Matches(bi, Inserted(bi, map[], rows[i]), rows[k])
  }

  datatype Kind = UpdateJoin | Insert

  datatype Statement = Statement(kind: Kind, middle: seq<seq<Placeholder>>, args: Values)

  function Rows(s: Statement): seq<Values> {
    Bind(s.middle, 0, s.args)
  }

  /** What a database does with an INSERT of some rows, and when it refuses: Postgres does not update a record
      twice in one statement, and the key is unique. */
  function InsertRows(bi: BatchInsert, t: Table, rows: seq<Values>): Option<Table>
    requires Aligned(bi, rows)
  {
    if !bi.Upserts() then Some(t.(records := t.records + InsertedAll(bi, t.defaults, rows)))
    else match bi.dialect
      case Postgres => if bi.HasNonKeys() && !DistinctKeys(bi, rows) then None else Some(UpsertAll(bi, t, rows))
      case SQLServer =>
        if Distinct(bi, Missing(bi, t, rows)) then Some(t.(records := t.records + Missing(bi, t, rows))) else None
      case _ => Some(UpsertAll(bi, t, rows))
  }

  function InsertedAll(bi: BatchInsert, defaults: Record, rows: seq<Values>): seq<Record>
    requires Aligned(bi, rows)
  {
    seq(|rows|, i requires 0 <= i < |rows| => Inserted(bi, defaults, rows[i]))
  }

  /** What a database does with a statement, which must have rows and as many arguments as placeholders, not too
      many. */
  function Effect(bi: BatchInsert, t: Table, s: Statement): Option<Table> {
    if s.middle == [] || Count(s.middle) != |s.args| then None
    else if ParamLimit(bi.dialect) > 0 && |s.args| > ParamLimit(bi.dialect) then None
    else if !Aligned(bi, Rows(s)) then None
    else match s.kind
      case UpdateJoin => Some(t.(records := RewrittenAll(bi, t.records, Rows(s))))
      case Insert => InsertRows(bi, t, Rows(s))
  }

  // ----- a run -----

  function StatementOf(bi: BatchInsert, kind: Kind, rows: seq<Values>): Statement {
    Statement(kind, Placeholders(bi.dialect, 0, |rows|, |bi.columns|), Args(rows))
  }

  function ForBatch(bi: BatchInsert, rows: seq<Values>): seq<Statement> {
    (if bi.NeedsUpdate() then [StatementOf(bi, UpdateJoin, rows)] else []) + [StatementOf(bi, Insert, rows)]
  }

  /** The statements for some rows: full batches, then what is left over unless the rows broke off. */
  function Statements(bi: BatchInsert, rows: seq<Values>, size: nat, complete: bool): seq<Statement>
    requires size > 0
    decreases |rows|
  {
    if |rows| >= size then ForBatch(bi, rows[..size]) + Statements(bi, rows[size..], size, complete)
    else if rows == [] || !complete then []
    else ForBatch(bi, rows)
  }

  /** The table after some statements, and whether one of them failed: at a fault, or because it is refused. */
  datatype Played = Played(table: Table, failed: bool)

  function Play(bi: BatchInsert, faults: set<nat>, n: nat, t: Table, stmts: seq<Statement>): Played
    decreases |stmts|
  {
    if stmts == [] then Played(t, false)
    else if n in faults || Effect(bi, t, stmts[0]) == None then Played(t, true)
    else Play(bi, faults, n + 1, Effect(bi, t, stmts[0]).value, stmts[1..])
  }

  class Database {
    var table: Table
    var log: seq<Statement>
    /** The statements, by their number, that fail for reasons of their own. */
    const faults: set<nat>

    constructor (table: Table, faults: set<nat>)
      ensures this.table == table && this.faults == faults && log == []
    {
      this.table, this.faults, log := table, faults, [];
    }

    method Exec(bi: BatchInsert, s: Statement) returns (ok: bool)
      modifies this
      ensures log == old(log) + [s]
      ensures ok == (|old(log)| !in faults && Effect(bi, old(table), s).Some?)
      ensures table == if ok then Effect(bi, old(table), s).value else old(table)
    {
      ok := |log| !in faults && Effect(bi, table, s).Some?;
      if ok {
        table := Effect(bi, table, s).value;
      }
      log := log + [s];
    }
  }
}
