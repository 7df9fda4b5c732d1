/** What comes of inserting in batches: the rows are all in the statements, and the table is the one that
    comes of upserting the rows one by one, whatever the size of a batch. */
module BatchUpserts {
  import opened Common
  import opened BatchInserts
  import opened BatchRuns

  // ----- the rows in the statements -----

  predicate WithinLimit(bi: BatchInsert, size: nat) {
    ParamLimit(bi.dialect) > 0 ==> size * |bi.columns| <= ParamLimit(bi.dialect)
  }

  /** The database reads the rows from a statement, and its parameters are within the limit if those of a batch are. */
  lemma StatementIsRead(bi: BatchInsert, kind: Kind, rows: seq<Values>, size: nat)
    requires Aligned(bi, rows) && 0 < |rows| <= size && WithinLimit(bi, size)
    ensures var s := StatementOf(bi, kind, rows);
            && s.middle != [] && Count(s.middle) == |s.args| == |rows| * |bi.columns|
            && Rows(s) == rows && (ParamLimit(bi.dialect) > 0 ==> |s.args| <= ParamLimit(bi.dialect))
  {
    var s, n := StatementOf(bi, kind, rows), |bi.columns|;
    assert s.args[0..] == Args(rows);
    BindReadsRows(bi.dialect, 0, s.args, rows, n);
    OnePlaceholderEach(bi.dialect, 0, rows, n);
    Monotone(|rows|, size, n);
  }

  /** The rows that INSERT statements carry, in the order of the statements. */
  function Carried(stmts: seq<Statement>): seq<Values> {
    if stmts == [] then []
    else (if stmts[0].kind == Insert then Rows(stmts[0]) else []) + Carried(stmts[1..])
  }

  lemma CarriedByBatch(bi: BatchInsert, rows: seq<Values>, size: nat, rest: seq<Statement>)
    requires Aligned(bi, rows) && 0 < |rows| <= size && WithinLimit(bi, size)
    ensures Carried(ForBatch(bi, rows) + rest) == rows + Carried(rest)
  {
    StatementIsRead(bi, Insert, rows, size);
    var insert := [StatementOf(bi, Insert, rows)];
    assert (insert + rest)[1..] == rest;
    if bi.NeedsUpdate() {
      assert ForBatch(bi, rows) + rest == [StatementOf(bi, UpdateJoin, rows)] + (insert + rest);
    } else {
      assert ForBatch(bi, rows) == insert;
    }
  }

  /** The statements carry all rows once and in order; if the rows break off, less than a batch of them is missing. */
  lemma {:induction false} StatementsCarryRows(bi: BatchInsert, rows: seq<Values>, size: nat, complete: bool)
    requires Aligned(bi, rows) && size > 0 && WithinLimit(bi, size)
    ensures var carried := Carried(Statements(bi, rows, size, complete));
            carried <= rows && |rows| - |carried| < size && (complete ==> carried == rows)
    decreases |rows|
  {
    if |rows| >= size {
      var first, rest := rows[..size], rows[size..];
      StatementsCarryRows(bi, rest, size, complete);
      CarriedByBatch(bi, first, size, Statements(bi, rest, size, complete));
      assert first + rest == rows;
    } else if rows != [] && complete {
      CarriedByBatch(bi, rows, size, []);
      assert ForBatch(bi, rows) + [] == ForBatch(bi, rows);
    }
  }

  // ----- keys -----

  ghost predicate KeysEqual(bi: BatchInsert, r: Record, s: Record) {
    forall k :: k in bi.Keys() ==> Get(r, k) == Get(s, k)
  }

  lemma SameKeyOfEqual(bi: BatchInsert, r: Record, s: Record, other: Record)
    requires KeysEqual(bi, r, s)
    ensures SameKey(bi, r, other) == SameKey(bi, s, other) && SameKey(bi, other, r) == SameKey(bi, other, s)
  {
  }

  lemma {:induction false} PutKeeps(r: Record, columns: seq<string>, row: Values, chosen: string -> bool, c: string)
    requires |row| == |columns| && !chosen(c)
    ensures Get(Put(r, columns, row, chosen), c) == Get(r, c)
  {
    if columns == [] {
    } else {
      PutKeeps(r, columns[..|columns| - 1], row[..|columns| - 1], chosen, c);
    }
  }

  lemma {:induction false} PutReads(r: Record, s: Record, columns: seq<string>, row: Values, chosen: string -> bool,
                                    c: string)
    requires |row| == |columns| && c in columns && chosen(c)
    ensures Get(Put(r, columns, row, chosen), c) == Get(Put(s, columns, row, Everything), c)
  {
    var k := |columns| - 1;
    if columns[k] != c {
      PutReads(r, s, columns[..k], row[..k], chosen, c);
    }
  }

  lemma KeysAreInserted(bi: BatchInsert, k: string)
    requires k in bi.Keys()
    ensures k in bi.columns && !bi.Sets(k)
  {
  }

  lemma UpdatedKeepsKey(bi: BatchInsert, r: Record, row: Values)
    requires |row| == |bi.columns|
    ensures KeysEqual(bi, Updated(bi, r, row), r)
  {
    forall k | k in bi.Keys() ensures Get(Updated(bi, r, row), k) == Get(r, k) {
      KeysAreInserted(bi, k);
      PutKeeps(r, bi.columns, row, c => bi.Sets(c), k);
    }
  }

  lemma InsertedHasKey(bi: BatchInsert, defaults: Record, row: Values)
    requires |row| == |bi.columns|
    ensures KeysEqual(bi, Inserted(bi, defaults, row), Inserted(bi, map[], row))
  {
    forall k | k in bi.Keys() ensures Get(Inserted(bi, defaults, row), k) == Get(Inserted(bi, map[], row), k) {
      KeysAreInserted(bi, k);
      PutReads(defaults, map[], bi.columns, row, Everything, k);
    }
  }

  lemma {:induction false} RewrittenKeepsKey(bi: BatchInsert, r: Record, rows: seq<Values>)
    requires Aligned(bi, rows)
    ensures KeysEqual(bi, Rewritten(bi, r, rows), r)
  {
    if rows == [] {
    } else {
      var k := |rows| - 1;
      if Matches(bi, r, rows[k]) {
        UpdatedKeepsKey(bi, r, rows[k]);
      } else {
        RewrittenKeepsKey(bi, r, rows[..k]);
      }
    }
  }

  lemma RewrittenMatches(bi: BatchInsert, r: Record, rows: seq<Values>, row: Values)
    requires Aligned(bi, rows) && |row| == |bi.columns|
    ensures Matches(bi, Rewritten(bi, r, rows), row) == Matches(bi, r, row)
  {
    RewrittenKeepsKey(bi, r, rows);
    SameKeyOfEqual(bi, Rewritten(bi, r, rows), r, Inserted(bi, map[], row));
  }

  /** Rows of another key do not touch a record. */
  lemma {:induction false} RewrittenByOthers(bi: BatchInsert, r: Record, rows: seq<Values>)
    requires Aligned(bi, rows) && forall i :: 0 <= i < |rows| ==> !Matches(bi, r, rows[i])
    ensures Rewritten(bi, r, rows) == r
  {
    if rows == [] {
    } else {
      RewrittenByOthers(bi, r, rows[..|rows| - 1]);
    }
  }

  // ----- one batch on SQL Server -----

  lemma TakenAfter(bi: BatchInsert, records: seq<Record>, rows: seq<Values>, row: Values)
    requires Aligned(bi, rows) && |row| == |bi.columns|
    ensures Taken(bi, RewrittenAll(bi, records, rows), row) == Taken(bi, records, row)
  {
    forall i | 0 <= i < |records|
      ensures Matches(bi, RewrittenAll(bi, records, rows)[i], row) == Matches(bi, records[i], row)
    {
      RewrittenMatches(bi, records[i], rows, row);
    }
    if Taken(bi, records, row) {
      var i :| 0 <= i < |records| && Matches(bi, records[i], row);
      assert Matches(bi, RewrittenAll(bi, records, rows)[i], row);
    }
  }

  /** The UPDATE does not make a row missing, or keep it from being so. */
  lemma {:induction false} MissingAfter(bi: BatchInsert, t: Table, changes: seq<Values>, rows: seq<Values>)
    requires Aligned(bi, changes) && Aligned(bi, rows)
    ensures Missing(bi, t.(records := RewrittenAll(bi, t.records, changes)), rows) == Missing(bi, t, rows)
  {
    if rows == [] {
    } else {
      MissingAfter(bi, t, changes, rows[..|rows| - 1]);
      TakenAfter(bi, t.records, changes, rows[|rows| - 1]);
    }
  }

  /** The records that are missing are those of rows. */
  lemma {:induction false} MissingFrom(bi: BatchInsert, t: Table, rows: seq<Values>, r: Record) returns (i: nat)
    requires Aligned(bi, rows) && r in Missing(bi, t, rows)
    ensures i < |rows| && r == Inserted(bi, t.defaults, rows[i])
  {
    var k := |rows| - 1;
    if r in Missing(bi, t, rows[..k]) {
      i := MissingFrom(bi, t, rows[..k], r);
    } else {
      i := k;
    }
  }

  lemma MissingDoNotMatch(bi: BatchInsert, t: Table, rows: seq<Values>, row: Values)
    requires Aligned(bi, rows) && |row| == |bi.columns| && DistinctKeys(bi, rows + [row])
    ensures forall r :: r in Missing(bi, t, rows) ==> !Matches(bi, r, row)
  {
    forall r | r in Missing(bi, t, rows) ensures !Matches(bi, r, row) {
      var i := MissingFrom(bi, t, rows, r);
      assert (rows + [row])[i] == rows[i] && (rows + [row])[|rows|] == row;
      assert !Matches(bi, Inserted(bi, map[], rows[i]), row);
      InsertedHasKey(bi, t.defaults, rows[i]);
      SameKeyOfEqual(bi, r, Inserted(bi, map[], rows[i]), Inserted(bi, map[], row));
    }
  }

  /** Of rows with distinct keys, one at most has the key of a record. */
  lemma OnlyOneMatches(bi: BatchInsert, r: Record, rows: seq<Values>, row: Values)
    requires Aligned(bi, rows) && |row| == |bi.columns| && DistinctKeys(bi, rows + [row]) && Matches(bi, r, row)
    ensures forall i :: 0 <= i < |rows| ==> !Matches(bi, r, rows[i])
  {
    forall i | 0 <= i < |rows| ensures !Matches(bi, r, rows[i]) {
      assert (rows + [row])[i] == rows[i] && (rows + [row])[|rows|] == row;
      assert !Matches(bi, Inserted(bi, map[], rows[i]), row);
    }
  }

  lemma OneMoreRewritten(bi: BatchInsert, records: seq<Record>, rows: seq<Values>, row: Values)
    requires Aligned(bi, rows) && |row| == |bi.columns| && DistinctKeys(bi, rows + [row])
    ensures RewrittenAll(bi, RewrittenAll(bi, records, rows), [row]) == RewrittenAll(bi, records, rows + [row])
  {
    forall i | 0 <= i < |records|
      ensures Rewritten(bi, Rewritten(bi, records[i], rows), [row]) == Rewritten(bi, records[i], rows + [row])
    {
      RewrittenMatches(bi, records[i], rows, row);
      assert (rows + [row])[..|rows|] == rows;
      if Matches(bi, records[i], row) {
        OnlyOneMatches(bi, records[i], rows, row);
        RewrittenByOthers(bi, records[i], rows);
      } else {
        assert [row][..0] == [];
      }
    }
  }

  lemma RewrittenConcat(bi: BatchInsert, a: seq<Record>, b: seq<Record>, row: Values)
    requires |row| == |bi.columns| && forall r :: r in b ==> !Matches(bi, r, row)
    ensures RewrittenAll(bi, a + b, [row]) == RewrittenAll(bi, a, [row]) + b
    ensures Taken(bi, a + b, row) == Taken(bi, a, row)
  {
    assert [row][..0] == [];
    forall i | 0 <= i < |b| ensures Rewritten(bi, b[i], [row]) == b[i] && !Matches(bi, (a + b)[|a| + i], row) {
      assert b[i] in b;
    }
    if Taken(bi, a, row) {
      var i :| 0 <= i < |a| && Matches(bi, a[i], row);
      assert (a + b)[i] == a[i];
    }
    if Taken(bi, a + b, row) {
      var i :| 0 <= i < |a + b| && Matches(bi, (a + b)[i], row);
      assert i < |a| && (a + b)[i] == a[i];
    }
  }

  lemma NotTaken(bi: BatchInsert, records: seq<Record>, row: Values)
    requires |row| == |bi.columns| && !Taken(bi, records, row)
    ensures RewrittenAll(bi, records, [row]) == records
  {
    RewrittenConcat(bi, [], records, row);
    assert [] + records == records && RewrittenAll(bi, [], [row]) == [];
  }

  lemma DistinctPrefix(bi: BatchInsert, rows: seq<Values>, k: nat)
    requires Aligned(bi, rows) && k <= |rows| && DistinctKeys(bi, rows)
    ensures DistinctKeys(bi, rows[..k])
  {
  }

  /** Updating all records that are there and inserting those that are missing is to upsert the rows one by one. */
  lemma {:induction false} UpdateThenInsert(bi: BatchInsert, t: Table, rows: seq<Values>)
    requires Aligned(bi, rows) && DistinctKeys(bi, rows)
    ensures UpsertAll(bi, t, rows) == t.(records := RewrittenAll(bi, t.records, rows) + Missing(bi, t, rows))
  {
    if rows == [] {
      assert RewrittenAll(bi, t.records, []) == t.records;
    } else {
      var init, row := rows[..|rows| - 1], rows[|rows| - 1];
      assert init + [row] == rows;
      DistinctPrefix(bi, rows, |rows| - 1);
      UpdateThenInsert(bi, t, init);
      MissingDoNotMatch(bi, t, init, row);
      RewrittenConcat(bi, RewrittenAll(bi, t.records, init), Missing(bi, t, init), row);
      TakenAfter(bi, t.records, init, row);
      OneMoreRewritten(bi, t.records, init, row);
      if !Taken(bi, t.records, row) {
        NotTaken(bi, RewrittenAll(bi, t.records, init), row);
      }
    }
  }

  lemma {:induction false} MissingAreDistinct(bi: BatchInsert, t: Table, rows: seq<Values>)
    requires Aligned(bi, rows) && DistinctKeys(bi, rows)
    ensures Distinct(bi, Missing(bi, t, rows))
  {
    if rows == [] {
    } else {
      var init, row := rows[..|rows| - 1], rows[|rows| - 1];
      assert init + [row] == rows;
      DistinctPrefix(bi, rows, |rows| - 1);
      MissingAreDistinct(bi, t, init);
      MissingDoNotMatch(bi, t, init, row);
      InsertedHasKey(bi, t.defaults, row);
      forall r | r in Missing(bi, t, init) ensures !SameKey(bi, r, Inserted(bi, t.defaults, row)) {
        SameKeyOfEqual(bi, Inserted(bi, t.defaults, row), Inserted(bi, map[], row), r);
      }
    }
  }

  // ----- what a batch does -----

  lemma {:induction false} PutNothing(r: Record, columns: seq<string>, row: Values, chosen: string -> bool)
    requires |row| == |columns| && forall c :: c in columns ==> !chosen(c)
    ensures Put(r, columns, row, chosen) == r
  {
    if columns == [] {
    } else {
      PutNothing(r, columns[..|columns| - 1], row[..|columns| - 1], chosen);
    }
  }

  /** Without other columns than the key, there is nothing to update. */
  lemma {:induction false} NothingToSet(bi: BatchInsert, r: Record, rows: seq<Values>)
    requires Aligned(bi, rows) && !bi.HasNonKeys()
    ensures Rewritten(bi, r, rows) == r
  {
    if rows == [] {
    } else {
      NothingToSet(bi, r, rows[..|rows| - 1]);
      forall c | c in bi.columns ensures !bi.Sets(c) {
        assert !bi.NonKey(c);
      }
      PutNothing(r, bi.columns, rows[|rows| - 1], c => bi.Sets(c));
    }
  }

  /** The table after the statements of a batch, if neither fails. */
  function AfterBatch(bi: BatchInsert, t: Table, rows: seq<Values>): Option<Table>
    requires Aligned(bi, rows)
  {
    InsertRows(bi, if bi.NeedsUpdate() then t.(records := RewrittenAll(bi, t.records, rows)) else t, rows)
  }

  lemma BatchIsPlayed(bi: BatchInsert, n: nat, t: Table, rows: seq<Values>, size: nat, rest: seq<Statement>)
    requires Aligned(bi, rows) && 0 < |rows| <= size && WithinLimit(bi, size)
    ensures AfterBatch(bi, t, rows) == None ==> Play(bi, {}, n, t, ForBatch(bi, rows) + rest).failed
    ensures AfterBatch(bi, t, rows).Some? ==>
              Play(bi, {}, n, t, ForBatch(bi, rows) + rest)
              == Play(bi, {}, n + |ForBatch(bi, rows)|, AfterBatch(bi, t, rows).value, rest)
  {
    StatementIsRead(bi, Insert, rows, size);
    StatementIsRead(bi, UpdateJoin, rows, size);
    var insert := [StatementOf(bi, Insert, rows)];
    assert (insert + rest)[1..] == rest;
    if bi.NeedsUpdate() {
      var update := [StatementOf(bi, UpdateJoin, rows)];
      assert ForBatch(bi, rows) + rest == update + (insert + rest);
      assert (update + (insert + rest))[1..] == insert + rest;
    } else {
      assert ForBatch(bi, rows) == insert;
    }
  }

  /** A batch of rows with distinct keys does what its rows do one by one. */
  lemma BatchIsRowByRow(bi: BatchInsert, t: Table, rows: seq<Values>)
    requires bi.Upserts() && Aligned(bi, rows) && DistinctKeys(bi, rows)
    ensures AfterBatch(bi, t, rows) == Some(UpsertAll(bi, t, rows))
  {
    if bi.dialect == SQLServer {
      var u := t.(records := RewrittenAll(bi, t.records, rows));
      UpdateThenInsert(bi, t, rows);
      MissingAreDistinct(bi, t, rows);
      MissingAfter(bi, t, rows, rows);
      if !bi.NeedsUpdate() {
        forall i | 0 <= i < |t.records| ensures Rewritten(bi, t.records[i], rows) == t.records[i] {
          NothingToSet(bi, t.records[i], rows);
        }
        assert u == t;
      }
    }
  }

  // ----- all batches -----

  /** The batch may be executed: its keys are distinct, if they have to be. */
  ghost predicate Allowed(bi: BatchInsert, rows: seq<Values>)
    requires Aligned(bi, rows)
  {
    || bi.dialect == SQLite || bi.dialect == MySQL
    || (bi.dialect == Postgres && !bi.HasNonKeys())
    || DistinctKeys(bi, rows)
  }

  ghost predicate AllAllowed(bi: BatchInsert, rows: seq<Values>, size: nat)
    requires Aligned(bi, rows) && size > 0
    decreases |rows|
  {
    if |rows| >= size then Allowed(bi, rows[..size]) && AllAllowed(bi, rows[size..], size) else Allowed(bi, rows)
  }

  lemma AllowedBatch(bi: BatchInsert, t: Table, rows: seq<Values>)
    requires bi.Upserts() && Aligned(bi, rows)
    ensures Allowed(bi, rows) ==> AfterBatch(bi, t, rows) == Some(UpsertAll(bi, t, rows))
    ensures bi.dialect != SQLServer ==> (Allowed(bi, rows) <==> AfterBatch(bi, t, rows).Some?)
  {
    if DistinctKeys(bi, rows) {
      BatchIsRowByRow(bi, t, rows);
    }
  }

  lemma {:induction false} UpsertAllConcat(bi: BatchInsert, t: Table, a: seq<Values>, b: seq<Values>)
    requires Aligned(bi, a) && Aligned(bi, b)
    ensures UpsertAll(bi, t, a + b) == UpsertAll(bi, UpsertAll(bi, t, a), b)
  {
    if b == [] {
      assert a + b == a;
    } else {
      UpsertAllConcat(bi, t, a, b[..|b| - 1]);
      assert (a + b)[..|a + b| - 1] == a + b[..|b| - 1];
    }
  }

  lemma OneByOneInParts(bi: BatchInsert, t: Table, rows: seq<Values>, k: nat)
    requires Aligned(bi, rows) && k <= |rows|
    ensures UpsertAll(bi, UpsertAll(bi, t, rows[..k]), rows[k..]) == UpsertAll(bi, t, rows)
  {
    UpsertAllConcat(bi, t, rows[..k], rows[k..]);
    assert rows[..k] + rows[k..] == rows;
  }

  /** A batch is refused, or it is as if its rows were upserted one by one. */
  lemma BatchThenRest(bi: BatchInsert, n: nat, t: Table, rows: seq<Values>, size: nat, rest: seq<Statement>)
    requires bi.Upserts() && Aligned(bi, rows) && 0 < |rows| <= size && WithinLimit(bi, size)
    ensures Allowed(bi, rows) ==>
              Play(bi, {}, n, t, ForBatch(bi, rows) + rest)
                  == Play(bi, {}, n + |ForBatch(bi, rows)|, UpsertAll(bi, t, rows), rest)
    ensures bi.dialect != SQLServer && !Allowed(bi, rows) ==> Play(bi, {}, n, t, ForBatch(bi, rows) + rest).failed
  {
    AllowedBatch(bi, t, rows);
    BatchIsPlayed(bi, n, t, rows, size, rest);
  }

  /** Whatever the size of a batch, the table is that of rows upserted one by one, if the keys are distinct within
      each batch where they have to be. */
  lemma {:induction false} BatchesAreRowByRow(bi: BatchInsert, n: nat, t: Table, rows: seq<Values>, size: nat)
    requires bi.Upserts() && Aligned(bi, rows) && size > 0 && WithinLimit(bi, size) && AllAllowed(bi, rows, size)
    ensures Play(bi, {}, n, t, Statements(bi, rows, size, true)) == Played(UpsertAll(bi, t, rows), false)
    decreases |rows|
  {
    if |rows| >= size {
      var first, rest := rows[..size], rows[size..];
      var stmts, next := Statements(bi, rest, size, true), n + |ForBatch(bi, first)|;
      BatchThenRest(bi, n, t, first, size, stmts);
      BatchesAreRowByRow(bi, next, UpsertAll(bi, t, first), rest, size);
      OneByOneInParts(bi, t, rows, size);
    } else if rows != [] {
      BatchThenRest(bi, n, t, rows, size, []);
      assert ForBatch(bi, rows) + [] == ForBatch(bi, rows);
    }
  }

  /** On other systems than SQL Server, no statement is refused exactly then. */
  lemma {:induction false} BatchesFailExactly(bi: BatchInsert, n: nat, t: Table, rows: seq<Values>, size: nat)
    requires bi.Upserts() && Aligned(bi, rows) && size > 0 && WithinLimit(bi, size) && bi.dialect != SQLServer
    ensures Play(bi, {}, n, t, Statements(bi, rows, size, true)).failed <==> !AllAllowed(bi, rows, size)
    decreases |rows|
  {
    if AllAllowed(bi, rows, size) {
      BatchesAreRowByRow(bi, n, t, rows, size);
    } else if |rows| >= size {
      var first, rest := rows[..size], rows[size..];
      BatchThenRest(bi, n, t, first, size, Statements(bi, rest, size, true));
      BatchesFailExactly(bi, n + |ForBatch(bi, first)|, UpsertAll(bi, t, first), rest, size);
    } else {
      BatchThenRest(bi, n, t, rows, size, []);
      assert ForBatch(bi, rows) + [] == ForBatch(bi, rows);
    }
  }

  lemma {:induction false} DistinctAreAllowed(bi: BatchInsert, rows: seq<Values>, size: nat)
    requires Aligned(bi, rows) && size > 0 && DistinctKeys(bi, rows)
    ensures AllAllowed(bi, rows, size)
    decreases |rows|
  {
    if |rows| >= size {
      DistinctPrefix(bi, rows, size);
      DistinctAreAllowed(bi, rows[size..], size);
    }
  }

  /** Two sizes of a batch come to the same table. */
  lemma BatchSizeDoesNotMatter(bi: BatchInsert, t: Table, rows: seq<Values>, size: nat, other: nat)
    requires bi.Upserts() && Aligned(bi, rows) && DistinctKeys(bi, rows)
    requires size > 0 && WithinLimit(bi, size) && other > 0 && WithinLimit(bi, other)
    ensures Play(bi, {}, 0, t, Statements(bi, rows, size, true))
        == Play(bi, {}, 0, t, Statements(bi, rows, other, true))
  {
    DistinctAreAllowed(bi, rows, size);
    DistinctAreAllowed(bi, rows, other);
    BatchesAreRowByRow(bi, 0, t, rows, size);
    BatchesAreRowByRow(bi, 0, t, rows, other);
  }

  /** A run without faults, from the size that is wanted to the table: it succeeds, with the rows upserted one by
      one. */
  lemma RunIsRowByRow(bi: BatchInsert, log: seq<Statement>, t: Table, log1: seq<Statement>, t1: Table,
                      rows: seq<Values>, outcome: Outcome)
    requires Starts(bi) && bi.Upserts() && Aligned(bi, rows) && DistinctKeys(bi, rows)
    requires Ran(bi, {}, log, t, log1, t1, rows, false, outcome)
    ensures outcome == Done && t1 == UpsertAll(bi, t, rows)
  {
    SizeFitsExactly(bi);
    DistinctAreAllowed(bi, rows, Size(bi));
    BatchesAreRowByRow(bi, |log|, t, rows, Size(bi));
  }

  // ----- the rows in the table -----

  /** The key stays unique. */
  lemma {:induction false} KeysStayUnique(bi: BatchInsert, t: Table, rows: seq<Values>)
    requires Aligned(bi, rows) && Distinct(bi, t.records)
    ensures Distinct(bi, UpsertAll(bi, t, rows).records)
  {
    if rows == [] {
    } else {
      var k := |rows| - 1;
      KeysStayUnique(bi, t, rows[..k]);
      UpsertKeepsUnique(bi, UpsertAll(bi, t, rows[..k]), rows[k]);
    }
  }

  lemma UpsertKeepsUnique(bi: BatchInsert, t: Table, row: Values)
    requires |row| == |bi.columns| && Distinct(bi, t.records)
    ensures Distinct(bi, Upsert(bi, t, row).records)
  {
    var after := Upsert(bi, t, row).records;
    if Taken(bi, t.records, row) {
      forall i, k | 0 <= i < k < |after| ensures !SameKey(bi, after[i], after[k]) {
        RewrittenKeepsKey(bi, t.records[i], [row]);
        RewrittenKeepsKey(bi, t.records[k], [row]);
        SameKeyOfEqual(bi, after[i], t.records[i], after[k]);
        SameKeyOfEqual(bi, after[k], t.records[k], t.records[i]);
      }
    } else {
      InsertedHasKey(bi, t.defaults, row);
      forall i | 0 <= i < |t.records| ensures !SameKey(bi, t.records[i], Inserted(bi, t.defaults, row)) {
        SameKeyOfEqual(bi, Inserted(bi, t.defaults, row), Inserted(bi, map[], row), t.records[i]);
        assert !Matches(bi, t.records[i], row);
      }
    }
  }

  /** The record has the key of the row, and its values in all columns that are set. */
  ghost predicate Holds(bi: BatchInsert, r: Record, row: Values)
    requires |row| == |bi.columns|
  {
    && Matches(bi, r, row)
    && forall c :: c in bi.columns && bi.Sets(c) ==> Get(r, c) == Get(Inserted(bi, map[], row), c)
  }

  /** No part of the key is null. */
  predicate HasKey(bi: BatchInsert, row: Values)
    requires |row| == |bi.columns|
  {
    SameKey(bi, Inserted(bi, map[], row), Inserted(bi, map[], row))
  }

  lemma UpdatedHolds(bi: BatchInsert, r: Record, row: Values)
    requires |row| == |bi.columns| && Matches(bi, r, row)
    ensures Holds(bi, Updated(bi, r, row), row)
  {
    UpdatedKeepsKey(bi, r, row);
    SameKeyOfEqual(bi, Updated(bi, r, row), r, Inserted(bi, map[], row));
    forall c | c in bi.columns && bi.Sets(c) ensures Get(Updated(bi, r, row), c) == Get(Inserted(bi, map[], row), c) {
      PutReads(r, map[], bi.columns, row, d => bi.Sets(d), c);
    }
  }

  lemma InsertedHolds(bi: BatchInsert, defaults: Record, row: Values)
    requires |row| == |bi.columns| && HasKey(bi, row)
    ensures Holds(bi, Inserted(bi, defaults, row), row)
  {
    InsertedHasKey(bi, defaults, row);
    SameKeyOfEqual(bi, Inserted(bi, defaults, row), Inserted(bi, map[], row), Inserted(bi, map[], row));
    forall c | c in bi.columns && bi.Sets(c)
        ensures Get(Inserted(bi, defaults, row), c) == Get(Inserted(bi, map[], row), c) {
      PutReads(defaults, map[], bi.columns, row, Everything, c);
    }
  }

  /** The row itself is held after its upsert. */
  lemma LastIsThere(bi: BatchInsert, t: Table, row: Values) returns (k: nat)
    requires |row| == |bi.columns| && HasKey(bi, row)
    ensures k < |Upsert(bi, t, row).records| && Holds(bi, Upsert(bi, t, row).records[k], row)
  {
    assert [row][..0] == [];
    if Taken(bi, t.records, row) {
      k :| 0 <= k < |t.records| && Matches(bi, t.records[k], row);
      UpdatedHolds(bi, t.records[k], row);
    } else {
      k := |t.records|;
      InsertedHolds(bi, t.defaults, row);
    }
  }

  lemma OthersStay(bi: BatchInsert, t: Table, row: Values, k: nat)
    requires |row| == |bi.columns| && k < |t.records| && !Matches(bi, t.records[k], row)
    ensures k < |Upsert(bi, t, row).records| && Upsert(bi, t, row).records[k] == t.records[k]
  {
    RewrittenByOthers(bi, t.records[k], [row]);
  }

  /** Every row with a key is held by a record of the table in the end. */
  lemma {:induction false} RowsAreThere(bi: BatchInsert, t: Table, rows: seq<Values>, i: nat) returns (k: nat)
    requires Aligned(bi, rows) && DistinctKeys(bi, rows) && i < |rows| && HasKey(bi, rows[i])
    ensures k < |UpsertAll(bi, t, rows).records| && Holds(bi, UpsertAll(bi, t, rows).records[k], rows[i])
  {
    var init, row := rows[..|rows| - 1], rows[|rows| - 1];
    var before := UpsertAll(bi, t, init);
    if i == |rows| - 1 {
      k := LastIsThere(bi, before, row);
    } else {
      DistinctPrefix(bi, rows, |rows| - 1);
      k := RowsAreThere(bi, t, init, i);
      OtherKey(bi, before.records[k], rows, i);
      OthersStay(bi, before, row, k);
    }
  }

  lemma OtherKey(bi: BatchInsert, r: Record, rows: seq<Values>, i: nat)
    requires Aligned(bi, rows) && DistinctKeys(bi, rows) && i < |rows| - 1 && Matches(bi, r, rows[i])
    ensures !Matches(bi, r, rows[|rows| - 1])
  {
    assert !Matches(bi, Inserted(bi, map[], rows[i]), rows[|rows| - 1]);
  }
}
