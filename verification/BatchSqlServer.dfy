/** When SQL Server refuses a batch: its statement inserts the rows whose keys are not there, and does not see that two
    of them have the same one. */
module BatchSqlServer {
  import opened Common
  import opened BatchInserts
  import opened BatchRuns
  import opened BatchUpserts

  predicate Same(bi: BatchInsert, a: Values, b: Values)
    requires |a| == |bi.columns| == |b|
  {
    Matches(bi, Inserted(bi, map[], a), b)
  }

  predicate Among(bi: BatchInsert, rows: seq<Values>, row: Values)
    requires Aligned(bi, rows) && |row| == |bi.columns|
  {
    exists j :: 0 <= j < |rows| && Same(bi, rows[j], row)
  }

  lemma AmongLast(bi: BatchInsert, rows: seq<Values>, row: Values)
    requires rows != [] && Aligned(bi, rows) && |row| == |bi.columns|
    ensures Among(bi, rows, row) <==> Among(bi, rows[..|rows| - 1], row) || Same(bi, rows[|rows| - 1], row)
  {
    var init := rows[..|rows| - 1];
    if Among(bi, init, row) {
      var j :| 0 <= j < |init| && Same(bi, init[j], row);
      assert Same(bi, rows[j], row);
    }
    if Among(bi, rows, row) {
      var j :| 0 <= j < |rows| && Same(bi, rows[j], row);
      assert j < |init| ==> Same(bi, init[j], row);
    }
  }

  lemma {:induction false} AmongConcat(bi: BatchInsert, a: seq<Values>, b: seq<Values>, row: Values)
    requires Aligned(bi, a) && Aligned(bi, b) && |row| == |bi.columns|
    ensures Among(bi, a + b, row) <==> Among(bi, a, row) || Among(bi, b, row)
  {
    if b == [] {
      assert a + b == a;
    } else {
      AmongConcat(bi, a, b[..|b| - 1], row);
      AmongLast(bi, b, row);
      AmongLast(bi, a + b, row);
      assert (a + b)[..|a + b| - 1] == a + b[..|b| - 1];
    }
  }

  /** Rows of one key are both taken or both not. */
  lemma SameAreTaken(bi: BatchInsert, records: seq<Record>, a: Values, b: Values)
    requires |a| == |bi.columns| == |b| && Same(bi, a, b)
    ensures Taken(bi, records, a) == Taken(bi, records, b)
  {
    if Taken(bi, records, a) {
      var i :| 0 <= i < |records| && Matches(bi, records[i], a);
      assert Matches(bi, records[i], b);
    }
    if Taken(bi, records, b) {
      var i :| 0 <= i < |records| && Matches(bi, records[i], b);
      assert Matches(bi, records[i], a);
    }
  }

  lemma InsertedMatches(bi: BatchInsert, defaults: Record, a: Values, b: Values)
    requires |a| == |bi.columns| == |b|
    ensures Matches(bi, Inserted(bi, defaults, a), b) == Same(bi, a, b)
    ensures SameKey(bi, Inserted(bi, defaults, a), Inserted(bi, defaults, b)) == Same(bi, a, b)
  {
    InsertedHasKey(bi, defaults, a);
    InsertedHasKey(bi, defaults, b);
    SameKeyOfEqual(bi, Inserted(bi, defaults, a), Inserted(bi, map[], a), Inserted(bi, map[], b));
    SameKeyOfEqual(bi, Inserted(bi, defaults, b), Inserted(bi, map[], b), Inserted(bi, defaults, a));
  }

  lemma MissingLast(bi: BatchInsert, t: Table, rows: seq<Values>)
    requires rows != [] && Aligned(bi, rows)
    ensures var init, last := rows[..|rows| - 1], rows[|rows| - 1];
      Missing(bi, t, rows) == if Taken(bi, t.records, last) then Missing(bi, t, init)
                              else Missing(bi, t, init) + [Inserted(bi, t.defaults, last)]
  {
  }

  /** The keys among the missing records: those among the rows that are not taken. */
  lemma {:induction false} MissingKeys(bi: BatchInsert, t: Table, rows: seq<Values>, row: Values)
    requires Aligned(bi, rows) && |row| == |bi.columns|
    ensures Taken(bi, Missing(bi, t, rows), row) <==> Among(bi, rows, row) && !Taken(bi, t.records, row)
  {
    if rows == [] {
    } else {
      var init, last := rows[..|rows| - 1], rows[|rows| - 1];
      MissingKeys(bi, t, init, row);
      MissingLast(bi, t, rows);
      AmongLast(bi, rows, row);
      InsertedMatches(bi, t.defaults, last, row);
      if Same(bi, last, row) {
        SameAreTaken(bi, t.records, last, row);
      }
      if !Taken(bi, t.records, last) {
        TakenLast(bi, Missing(bi, t, init), Inserted(bi, t.defaults, last), row);
      }
    }
  }

  lemma TakenLast(bi: BatchInsert, records: seq<Record>, r: Record, row: Values)
    requires |row| == |bi.columns|
    ensures Taken(bi, records + [r], row) <==> Taken(bi, records, row) || Matches(bi, r, row)
  {
    var more := records + [r];
    if Taken(bi, records, row) {
      var i :| 0 <= i < |records| && Matches(bi, records[i], row);
      assert Matches(bi, more[i], row);
    }
    assert Matches(bi, r, row) ==> Matches(bi, more[|records|], row);
  }

  lemma {:induction false} TakenConcat(bi: BatchInsert, a: seq<Record>, b: seq<Record>, row: Values)
    requires |row| == |bi.columns|
    ensures Taken(bi, a + b, row) <==> Taken(bi, a, row) || Taken(bi, b, row)
  {
    if b == [] {
      assert a + b == a;
    } else {
      var init, last := b[..|b| - 1], b[|b| - 1];
      TakenConcat(bi, a, init, row);
      TakenLast(bi, init, last, row);
      TakenLast(bi, a + init, last, row);
      assert init + [last] == b && (a + init) + [last] == a + b;
    }
  }

  // ----- one batch -----

  /** A row has the key of an earlier one, which is not in the table. */
  predicate NewTwice(bi: BatchInsert, records: seq<Record>, rows: seq<Values>)
    requires Aligned(bi, rows)
  {
    if rows == [] then false
    else
      var init, last := rows[..|rows| - 1], rows[|rows| - 1];
      NewTwice(bi, records, init) || (Among(bi, init, last) && !Taken(bi, records, last))
  }

  lemma DistinctLast(bi: BatchInsert, records: seq<Record>, defaults: Record, row: Values)
    requires |row| == |bi.columns|
    ensures Distinct(bi, records + [Inserted(bi, defaults, row)]) <==>
            Distinct(bi, records) && !Taken(bi, records, row)
  {
    var r := Inserted(bi, defaults, row);
    var more := records + [r];
    InsertedHasKey(bi, defaults, row);
    forall i | 0 <= i < |records| ensures SameKey(bi, more[i], more[|records|]) == Matches(bi, records[i], row) {
      SameKeyOfEqual(bi, r, Inserted(bi, map[], row), records[i]);
    }
    if Distinct(bi, more) {
      forall i, k | 0 <= i < k < |records| ensures !SameKey(bi, records[i], records[k]) {
        assert !SameKey(bi, more[i], more[k]);
      }
    }
  }

  /** The missing records have different keys exactly if no new key comes twice. */
  lemma {:induction false} MissingDistinctExactly(bi: BatchInsert, t: Table, rows: seq<Values>)
    requires Aligned(bi, rows)
    ensures Distinct(bi, Missing(bi, t, rows)) <==> !NewTwice(bi, t.records, rows)
  {
    if rows == [] {
    } else {
      var init, last := rows[..|rows| - 1], rows[|rows| - 1];
      MissingDistinctExactly(bi, t, init);
      MissingLast(bi, t, rows);
      if !Taken(bi, t.records, last) {
        DistinctLast(bi, Missing(bi, t, init), t.defaults, last);
        MissingKeys(bi, t, init, last);
      }
    }
  }

  /** The batch goes through exactly then, and leaves the keys of the table and of the rows. */
  lemma BatchExactly(bi: BatchInsert, t: Table, rows: seq<Values>, row: Values)
    requires bi.Upserts() && Aligned(bi, rows) && bi.dialect == SQLServer && |row| == |bi.columns|
    ensures AfterBatch(bi, t, rows).Some? <==> !NewTwice(bi, t.records, rows)
    ensures AfterBatch(bi, t, rows).Some? ==>
              (Taken(bi, AfterBatch(bi, t, rows).value.records, row) <==>
               Taken(bi, t.records, row) || Among(bi, rows, row))
  {
    var u := if bi.NeedsUpdate() then t.(records := RewrittenAll(bi, t.records, rows)) else t;
    MissingAfter(bi, t, rows, rows);
    assert Missing(bi, u, rows) == Missing(bi, t, rows);
    MissingDistinctExactly(bi, t, rows);
    TakenAfter(bi, t.records, rows, row);
    TakenConcat(bi, u.records, Missing(bi, t, rows), row);
    MissingKeys(bi, t, rows, row);
  }

  // ----- all batches -----

  /** A row has the key of an earlier one of its batch, which is neither in the table nor in an earlier batch. */
  predicate Clashes(bi: BatchInsert, records: seq<Record>, earlier: seq<Values>, rows: seq<Values>)
    requires Aligned(bi, rows) && Aligned(bi, earlier)
  {
    if rows == [] then false
    else
      var init, last := rows[..|rows| - 1], rows[|rows| - 1];
      || Clashes(bi, records, earlier, init)
      || (Among(bi, init, last) && !Taken(bi, records, last) && !Among(bi, earlier, last))
  }

  predicate SomeClash(bi: BatchInsert, records: seq<Record>, earlier: seq<Values>, rows: seq<Values>, size: nat)
    requires Aligned(bi, rows) && Aligned(bi, earlier) && size > 0
    decreases |rows|
  {
    if |rows| >= size
    then Clashes(bi, records, earlier, rows[..size])
         || SomeClash(bi, records, earlier + rows[..size], rows[size..], size)
    else Clashes(bi, records, earlier, rows)
  }

  /** The table has the keys that it had at first and those of the rows so far. */
  ghost predicate KeysOf(bi: BatchInsert, records: seq<Record>, earlier: seq<Values>, now: seq<Record>)
    requires Aligned(bi, earlier)
  {
    forall row {:trigger Taken(bi, now, row)} :: |row| == |bi.columns| ==>
      (Taken(bi, now, row) <==> Taken(bi, records, row) || Among(bi, earlier, row))
  }

  lemma {:induction false} ClashesExactly(bi: BatchInsert, records: seq<Record>, earlier: seq<Values>,
                                          now: seq<Record>, rows: seq<Values>)
    requires Aligned(bi, rows) && Aligned(bi, earlier) && KeysOf(bi, records, earlier, now)
    ensures NewTwice(bi, now, rows) <==> Clashes(bi, records, earlier, rows)
  {
    if rows == [] {
    } else {
      ClashesExactly(bi, records, earlier, now, rows[..|rows| - 1]);
    }
  }

  lemma KeysAfter(bi: BatchInsert, records: seq<Record>, earlier: seq<Values>, t: Table, rows: seq<Values>)
    requires bi.Upserts() && bi.dialect == SQLServer && Aligned(bi, rows) && Aligned(bi, earlier)
    requires KeysOf(bi, records, earlier, t.records) && AfterBatch(bi, t, rows).Some?
    ensures KeysOf(bi, records, earlier + rows, AfterBatch(bi, t, rows).value.records)
  {
    var now := AfterBatch(bi, t, rows).value.records;
    forall row: Values | |row| == |bi.columns|
      ensures Taken(bi, now, row) <==> Taken(bi, records, row) || Among(bi, earlier + rows, row)
    {
      BatchExactly(bi, t, rows, row);
      AmongConcat(bi, earlier, rows, row);
      assert Taken(bi, t.records, row) <==> Taken(bi, records, row) || Among(bi, earlier, row);
    }
  }

  /** One batch, and what it leaves for the rest. */
  lemma BatchPlays(bi: BatchInsert, n: nat, records: seq<Record>, earlier: seq<Values>, t: Table, batch: seq<Values>,
                   size: nat, rest: seq<Statement>)
    requires bi.Upserts() && bi.dialect == SQLServer && Aligned(bi, batch) && Aligned(bi, earlier)
    requires 0 < |batch| <= size && WithinLimit(bi, size) && KeysOf(bi, records, earlier, t.records)
    ensures Clashes(bi, records, earlier, batch) ==> Play(bi, {}, n, t, ForBatch(bi, batch) + rest).failed
    ensures !Clashes(bi, records, earlier, batch) ==>
              && AfterBatch(bi, t, batch).Some?
              && KeysOf(bi, records, earlier + batch, AfterBatch(bi, t, batch).value.records)
              && Play(bi, {}, n, t, ForBatch(bi, batch) + rest)
                 == Play(bi, {}, n + |ForBatch(bi, batch)|, AfterBatch(bi, t, batch).value, rest)
  {
    BatchIsPlayed(bi, n, t, batch, size, rest);
    BatchExactly(bi, t, batch, batch[0]);
    ClashesExactly(bi, records, earlier, t.records, batch);
    if AfterBatch(bi, t, batch).Some? {
      KeysAfter(bi, records, earlier, t, batch);
    }
  }

  lemma {:induction false} PlayFailsExactly(bi: BatchInsert, n: nat, records: seq<Record>, earlier: seq<Values>,
                                            t: Table, rows: seq<Values>, size: nat)
    requires bi.Upserts() && bi.dialect == SQLServer && Aligned(bi, rows) && Aligned(bi, earlier)
    requires size > 0 && WithinLimit(bi, size) && KeysOf(bi, records, earlier, t.records)
    ensures Play(bi, {}, n, t, Statements(bi, rows, size, true)).failed
       <==> SomeClash(bi, records, earlier, rows, size)
    decreases |rows|
  {
    if |rows| >= size {
      var first, rest := rows[..size], rows[size..];
      BatchPlays(bi, n, records, earlier, t, first, size, Statements(bi, rest, size, true));
      if !Clashes(bi, records, earlier, first) {
        PlayFailsExactly(bi, n + |ForBatch(bi, first)|, records, earlier + first, AfterBatch(bi, t, first).value, rest,
                         size);
      }
    } else if rows != [] {
      BatchPlays(bi, n, records, earlier, t, rows, size, []);
      assert ForBatch(bi, rows) + [] == ForBatch(bi, rows);
    }
  }

  /** On SQL Server a statement is refused exactly if two rows of one batch have the same key, which is neither in the
      table nor in an earlier batch. */
  lemma SqlServerFailsExactly(bi: BatchInsert, n: nat, t: Table, rows: seq<Values>, size: nat)
    requires bi.Upserts() && bi.dialect == SQLServer && Aligned(bi, rows) && size > 0 && WithinLimit(bi, size)
    ensures Play(bi, {}, n, t, Statements(bi, rows, size, true)).failed <==> SomeClash(bi, t.records, [], rows, size)
  {
    PlayFailsExactly(bi, n, t.records, [], t, rows, size);
  }
}
