/** What inserting in batches comes to, column by column: the sizes, the placeholders, and the records that rows
    leave. */
module BatchResults {
  import opened Common
  import opened BatchInserts
  import opened BatchRuns
  import opened BatchUpserts

  // ----- sizes and placeholders -----

  /** The rows are no more than asked for, or 500 if that says nothing, no more than 25 for SQL Server, and with one
      more their parameters are within what the system takes. */
  predicate Bounded(bi: BatchInsert, size: int) {
    && size <= (if bi.batchsize > 0 then bi.batchsize else 500)
    && (bi.dialect == SQLServer ==> size <= 25 && (size + 1) * |bi.columns| <= 2100)
    && (bi.dialect == SQLite ==> (size + 1) * |bi.columns| <= 32766)
    && (bi.dialect == Postgres || bi.dialect == MySQL ==> (size + 1) * |bi.columns| <= 65535)
  }

  lemma Divided(limit: nat, n: nat, size: int)
    requires n > 0
    ensures size <= limit / n - 1 <==> (size + 1) * n <= limit
  {
    var q := limit / n;
    assert q * n <= limit < (q + 1) * n;
    if size + 1 <= q {
      Ordered(size + 1, q, n);
    } else {
      Ordered(q + 1, size + 1, n);
    }
  }

  lemma Ordered(a: int, b: int, n: nat)
    requires a <= b
    ensures a * n <= b * n
  {
    assert b * n - a * n == (b - a) * n;
  }

  /** The size of a batch is the largest that is within the bounds. */
  lemma SizeIsLargest(bi: BatchInsert, size: int)
    requires bi.columns != []
    ensures Bounded(bi, size) <==> size <= Size(bi)
  {
    Divided(32766, |bi.columns|, size);
    Divided(65535, |bi.columns|, size);
    Divided(2100, |bi.columns|, size);
  }

  /** Postgres and SQL Server read numbers, which count on from row to row; the others read one value after another. */
  lemma {:induction false} PlaceholdersExactly(d: Dialect, before: nat, batchsize: nat, n: nat, i: nat, j: nat)
    requires i < batchsize && j < n
    ensures var middle := Placeholders(d, before, batchsize, n);
      && |middle| == batchsize && |middle[i]| == n
      && middle[i][j] == if d == Postgres || d == SQLServer then Numbered(before + i * n + j + 1) else Next
    decreases batchsize
  {
    PlaceholdersCount(d, before, batchsize, n);
    var middle := Placeholders(d, before, batchsize, n);
    if i > 0 {
      PlaceholdersExactly(d, before + n, batchsize - 1, n, i - 1, j);
      assert middle[i] == Placeholders(d, before + n, batchsize - 1, n)[i - 1];
      assert before + n + (i - 1) * n == before + i * n;
    } else {
      assert 0 * n == 0 && middle[0] == RowPlaceholders(d, before, n);
      assert middle[0][j] == PlaceholderAt(d, before + j + 1);
    }
  }

  lemma {:induction false} PlaceholdersCount(d: Dialect, before: nat, batchsize: nat, n: nat)
    ensures |Placeholders(d, before, batchsize, n)| == batchsize
    decreases batchsize
  {
    if batchsize > 0 {
      PlaceholdersCount(d, before + n, batchsize - 1, n);
    }
  }

  // ----- one row -----

  /** There are key columns, and all of them are inserted. */
  predicate Keyed(bi: BatchInsert) {
    bi.keyColumns != [] && forall k :: k in bi.keyColumns ==> k in bi.columns
  }

  /** The column is set when the row takes the place of another: it is not part of the key, and SQL Server sets no
      identity. */
  predicate Overwrites(bi: BatchInsert, c: string) {
    c !in bi.keyColumns && !(bi.dialect == SQLServer && c in bi.identityColumns)
  }

  function Overwriting(bi: BatchInsert): string -> bool {
    c => Overwrites(bi, c)
  }

  predicate Once(columns: seq<string>) {
    forall i, k :: 0 <= i < k < |columns| ==> columns[i] != columns[k]
  }

  function ValueAt(r: Record, c: string): Value {
    if c in r then r[c] else Null
  }

  /** The record has the values of the row in the key columns, and no null among them. */
  ghost predicate OfKey(bi: BatchInsert, r: Record, row: Values)
    requires |row| == |bi.columns|
  {
    forall j {:trigger bi.columns[j]} :: 0 <= j < |row| && bi.columns[j] in bi.keyColumns ==>
      row[j] != Null && ValueAt(r, bi.columns[j]) == row[j]
  }

  /** The record is the other one, but for some of the columns of the row. */
  ghost predicate Over(bi: BatchInsert, before: Record, row: Values, chosen: string -> bool, after: Record)
    requires |row| == |bi.columns|
  {
    && (forall j {:trigger bi.columns[j]} :: 0 <= j < |row| ==>
          ValueAt(after, bi.columns[j]) == if chosen(bi.columns[j]) then row[j] else ValueAt(before, bi.columns[j]))
    && (forall c :: c !in bi.columns ==> ValueAt(after, c) == ValueAt(before, c))
  }

  lemma GetIs(r: Record, c: string)
    ensures Get(r, c) == ValueAt(r, c)
  {
  }

  lemma {:induction false} PutExactly(r: Record, columns: seq<string>, row: Values, chosen: string -> bool, j: nat)
    requires |row| == |columns| && Once(columns) && j < |row|
    ensures ValueAt(Put(r, columns, row, chosen), columns[j])
         == if chosen(columns[j]) then row[j] else ValueAt(r, columns[j])
  {
    var k := |columns| - 1;
    if j < k {
      PutExactly(r, columns[..k], row[..k], chosen, j);
    } else {
      PutElsewhere(r, columns[..k], row[..k], chosen, columns[k]);
    }
  }

  lemma {:induction false} PutElsewhere(r: Record, columns: seq<string>, row: Values, chosen: string -> bool, c: string)
    requires |row| == |columns| && c !in columns
    ensures ValueAt(Put(r, columns, row, chosen), c) == ValueAt(r, c)
  {
    if columns == [] {
    } else {
      var k := |columns| - 1;
      assert columns[k] in columns && forall x :: x in columns[..k] ==> x in columns;
      PutElsewhere(r, columns[..k], row[..k], chosen, c);
    }
  }

  lemma PutIsOver(bi: BatchInsert, r: Record, row: Values, chosen: string -> bool)
    requires |row| == |bi.columns| && Once(bi.columns)
    ensures Over(bi, r, row, chosen, Put(r, bi.columns, row, chosen))
  {
    forall j | 0 <= j < |row|
      ensures ValueAt(Put(r, bi.columns, row, chosen), bi.columns[j])
           == if chosen(bi.columns[j]) then row[j] else ValueAt(r, bi.columns[j])
    {
      PutExactly(r, bi.columns, row, chosen, j);
    }
    forall c | c !in bi.columns ensures ValueAt(Put(r, bi.columns, row, chosen), c) == ValueAt(r, c) {
      PutElsewhere(r, bi.columns, row, chosen, c);
    }
  }

  lemma MatchesExactly(bi: BatchInsert, r: Record, row: Values)
    requires Keyed(bi) && Once(bi.columns) && |row| == |bi.columns|
    ensures Matches(bi, r, row) <==> OfKey(bi, r, row)
  {
    var wanted := Inserted(bi, map[], row);
    PutIsOver(bi, map[], row, Everything);
    forall j | 0 <= j < |row| ensures Get(wanted, bi.columns[j]) == row[j] {
      GetIs(wanted, bi.columns[j]);
    }
    if Matches(bi, r, row) {
      forall j | 0 <= j < |row| && bi.columns[j] in bi.keyColumns
        ensures row[j] != Null && ValueAt(r, bi.columns[j]) == row[j]
      {
        assert bi.columns[j] in bi.Keys();
      }
    } else {
      var k :| k in bi.Keys() && !(Get(r, k) == Get(wanted, k) && Get(r, k) != Null);
      var j :| 0 <= j < |row| && bi.columns[j] == k;
    }
  }

  lemma UpdatedExactly(bi: BatchInsert, r: Record, row: Values)
    requires Keyed(bi) && Once(bi.columns) && |row| == |bi.columns|
    ensures Over(bi, r, row, Overwriting(bi), Updated(bi, r, row))
  {
    PutIsOver(bi, r, row, c => bi.Sets(c));
    forall j | 0 <= j < |row| ensures bi.Sets(bi.columns[j]) == Overwrites(bi, bi.columns[j]) {
    }
  }

  /** A row with a key: the records of that key get its values, or it comes after the others. */
  ghost predicate RowWritten(bi: BatchInsert, t: Table, row: Values, after: seq<Record>)
    requires |row| == |bi.columns|
  {
    if exists i :: 0 <= i < |t.records| && OfKey(bi, t.records[i], row)
    then
      && |after| == |t.records|
      && forall i :: 0 <= i < |after| ==>
           if OfKey(bi, t.records[i], row) then Over(bi, t.records[i], row, Overwriting(bi), after[i])
           else after[i] == t.records[i]
    else
      && |after| == |t.records| + 1 && after[..|t.records|] == t.records
      && Over(bi, t.defaults, row, Everything, after[|t.records|])
  }

  /** What upserting one row does to the records, on its values. */
  lemma UpsertExactly(bi: BatchInsert, t: Table, row: Values)
    requires Keyed(bi) && Once(bi.columns) && |row| == |bi.columns|
    ensures Upsert(bi, t, row).defaults == t.defaults && RowWritten(bi, t, row, Upsert(bi, t, row).records)
  {
    forall i | 0 <= i < |t.records| ensures Matches(bi, t.records[i], row) <==> OfKey(bi, t.records[i], row) {
      MatchesExactly(bi, t.records[i], row);
    }
    if Taken(bi, t.records, row) {
      assert [row][..0] == [];
      forall i | 0 <= i < |t.records| && OfKey(bi, t.records[i], row)
        ensures Over(bi, t.records[i], row, Overwriting(bi), Upsert(bi, t, row).records[i])
      {
        UpdatedExactly(bi, t.records[i], row);
      }
      forall i | 0 <= i < |t.records| && !OfKey(bi, t.records[i], row)
        ensures Upsert(bi, t, row).records[i] == t.records[i]
      {
        OthersStay(bi, t, row, i);
      }
    } else {
      PutIsOver(bi, t.defaults, row, Everything);
    }
  }

  /** Rows have different keys, where they have any. */
  lemma DistinctKeysExactly(bi: BatchInsert, rows: seq<Values>)
    requires Keyed(bi) && Once(bi.columns) && Aligned(bi, rows)
    ensures DistinctKeys(bi, rows) <==> forall i, k :: 0 <= i < k < |rows| ==> !SameKeyValues(bi, rows[i], rows[k])
  {
    forall i, k | 0 <= i < k < |rows|
      ensures Matches(bi, Inserted(bi, map[], rows[i]), rows[k]) <==> SameKeyValues(bi, rows[i], rows[k])
    {
      MatchesExactly(bi, Inserted(bi, map[], rows[i]), rows[k]);
      PutIsOver(bi, map[], rows[i], Everything);
    }
  }

  ghost predicate SameKeyValues(bi: BatchInsert, a: Values, b: Values)
    requires |a| == |b| == |bi.columns|
  {
    forall j {:trigger bi.columns[j]} :: 0 <= j < |a| && bi.columns[j] in bi.keyColumns ==> a[j] == b[j] && a[j] != Null
  }

  // ----- without a key -----

  /** Records that come for some rows, with the values of the rows and else the defaults. */
  ghost predicate NewFor(bi: BatchInsert, defaults: Record, rows: seq<Values>, records: seq<Record>)
    requires Aligned(bi, rows)
  {
    |records| == |rows| && forall i :: 0 <= i < |rows| ==> Over(bi, defaults, rows[i], Everything, records[i])
  }

  lemma PlainBatch(bi: BatchInsert, n: nat, t: Table, rows: seq<Values>, size: nat, rest: seq<Statement>)
    requires !(Keyed(bi) && bi.dialect != OtherDialect) && Aligned(bi, rows) && 0 < |rows| <= size
    requires WithinLimit(bi, size)
    ensures Play(bi, {}, n, t, ForBatch(bi, rows) + rest)
         == Play(bi, {}, n + 1, t.(records := t.records + InsertedAll(bi, t.defaults, rows)), rest)
  {
    assert !bi.Upserts();
    BatchIsPlayed(bi, n, t, rows, size, rest);
  }

  lemma InsertedAllConcat(bi: BatchInsert, defaults: Record, a: seq<Values>, b: seq<Values>)
    requires Aligned(bi, a) && Aligned(bi, b) && Aligned(bi, a + b)
    ensures InsertedAll(bi, defaults, a + b) == InsertedAll(bi, defaults, a) + InsertedAll(bi, defaults, b)
  {
  }

  /** Without a key, or on a system that is not known, all rows are inserted, in order, whatever the size of a batch. */
  lemma {:induction false} AllAreInserted(bi: BatchInsert, n: nat, t: Table, rows: seq<Values>, size: nat)
    requires !(Keyed(bi) && bi.dialect != OtherDialect) && Aligned(bi, rows) && size > 0 && WithinLimit(bi, size)
    ensures Play(bi, {}, n, t, Statements(bi, rows, size, true))
         == Played(t.(records := t.records + InsertedAll(bi, t.defaults, rows)), false)
    decreases |rows|
  {
    if |rows| >= size {
      var first, rest := rows[..size], rows[size..];
      PlainBatch(bi, n, t, first, size, Statements(bi, rest, size, true));
      AllAreInserted(bi, n + 1, t.(records := t.records + InsertedAll(bi, t.defaults, first)), rest, size);
      assert first + rest == rows;
      InsertedAllConcat(bi, t.defaults, first, rest);
    } else if rows != [] {
      PlainBatch(bi, n, t, rows, size, []);
      assert ForBatch(bi, rows) + [] == ForBatch(bi, rows);
    } else {
      assert t.records + [] == t.records;
    }
  }

  /** The records are those of before and then one for each row, with its values. */
  lemma InsertsExactly(bi: BatchInsert, n: nat, t: Table, rows: seq<Values>, size: nat)
    requires !(Keyed(bi) && bi.dialect != OtherDialect) && Aligned(bi, rows) && size > 0 && WithinLimit(bi, size)
    requires Once(bi.columns)
    ensures var end := Play(bi, {}, n, t, Statements(bi, rows, size, true));
      && !end.failed && |end.table.records| >= |t.records| && end.table.records[..|t.records|] == t.records
      && NewFor(bi, t.defaults, rows, end.table.records[|t.records|..])
  {
    AllAreInserted(bi, n, t, rows, size);
    forall i | 0 <= i < |rows| ensures Over(bi, t.defaults, rows[i], Everything, Inserted(bi, t.defaults, rows[i])) {
      PutIsOver(bi, t.defaults, rows[i], Everything);
    }
  }

  // ----- which runs start -----

  /** Statements are run exactly if there are columns, two rows are within what the system takes, the size is not
      negative, and an UPDATE, for SQL Server, has a column to set. */
  lemma StartsExactly(bi: BatchInsert)
    ensures Starts(bi)
       <==> && bi.columns != [] && bi.batchsize >= 0
            && (bi.dialect == SQLite ==> 2 * |bi.columns| <= 32766)
            && (bi.dialect == Postgres || bi.dialect == MySQL ==> 2 * |bi.columns| <= 65535)
            && (bi.dialect == SQLServer ==> 2 * |bi.columns| <= 2100)
            && (bi.dialect == SQLServer && Keyed(bi) && (exists c :: c in bi.columns && c !in bi.keyColumns) ==>
                  exists c :: c in bi.columns && c !in bi.keyColumns && c !in bi.identityColumns)
  {
    if bi.columns != [] {
      SizeIsLargest(bi, 1);
      assert Keyed(bi) ==> bi.Keys() == bi.keyColumns;
      if c :| c in bi.columns && c !in bi.keyColumns && Keyed(bi) {
        assert bi.NonKey(c);
      }
      if c :| c in bi.columns && c !in bi.keyColumns && c !in bi.identityColumns && Keyed(bi) {
        assert bi.Sets(c);
      }
    }
  }
}
