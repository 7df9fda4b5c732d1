/** Batches as they are collected and executed, row by row. */
module BatchRuns {
  import opened Common
  import opened BatchInserts

  datatype Outcome = NoColumns | Refused | Panicked | Failed | RowsFailed | Done

  /** A database prepares the statements: there are rows in them, and columns to set if there is an UPDATE. */
  predicate Preparable(bi: BatchInsert)
    requires bi.columns != []
  {
    Size(bi) >= 1 && (bi.NeedsUpdate() ==> exists c :: c in bi.columns && bi.Sets(c))
  }

  /** The statements are run: a size given as negative is taken for the default, but not by the buffer of arguments. */
  predicate Starts(bi: BatchInsert) {
    bi.columns != [] && Preparable(bi) && bi.batchsize >= 0
  }

  /** Some statements were to be run from a point on, and those that are left are to be run from here. */
  datatype Course = Course(bi: BatchInsert, faults: set<nat>, log: seq<Statement>, table: Table, stmts: seq<Statement>)
  {
    function End(): Played {
      Play(bi, faults, |log|, table, stmts)
    }

    predicate ReachedBy(log1: seq<Statement>, table1: Table, rest: seq<Statement>) {
      log + stmts == log1 + rest && End() == Play(bi, faults, |log1|, table1, rest)
    }

    /** A statement failed: those up to it have been logged, and nothing after it. */
    predicate StoppedAt(log1: seq<Statement>, table1: Table) {
      log <= log1 && log1 <= log + stmts && End() == Played(table1, true)
    }
  }

  /** One statement, and the others after it. */
  method ExecNext(ghost course: Course, db: Database, bi: BatchInsert, s: Statement,
                  ghost rest: seq<Statement>) returns (ok: bool)
    requires bi == course.bi && db.faults == course.faults && course.log <= db.log
    requires course.ReachedBy(db.log, db.table, [s] + rest)
    modifies db
    ensures ok ==> course.log <= db.log && db.log == old(db.log) + [s] && course.ReachedBy(db.log, db.table, rest)
    ensures !ok ==> course.StoppedAt(db.log, db.table)
  {
    assert ([s] + rest)[1..] == rest;
    ok := db.Exec(bi, s);
    assert old(db.log) + ([s] + rest) == old(db.log) + [s] + rest;
  }

  /** The one or two statements of a batch. */
  method ExecBatch(ghost course: Course, db: Database, bi: BatchInsert, middle: seq<seq<Placeholder>>, args: Values,
                   ghost batch: seq<Values>, ghost rest: seq<Statement>)
    returns (ok: bool)
    requires middle == Placeholders(bi.dialect, 0, |batch|, |bi.columns|) && args == Args(batch)
    requires bi == course.bi && db.faults == course.faults && course.log <= db.log
    requires course.ReachedBy(db.log, db.table, ForBatch(bi, batch) + rest)
    modifies db
    ensures ok ==> course.log <= db.log && course.ReachedBy(db.log, db.table, rest)
    ensures !ok ==> course.StoppedAt(db.log, db.table)
  {
    ghost var insert := [StatementOf(bi, Insert, batch)];
    if bi.NeedsUpdate() {
      assert ForBatch(bi, batch) + rest == [StatementOf(bi, UpdateJoin, batch)] + (insert + rest);
      ok := ExecNext(course, db, bi, Statement(UpdateJoin, middle, args), insert + rest);
      if !ok {
        return;
      }
    } else {
      assert ForBatch(bi, batch) == insert;
    }
    ok := ExecNext(course, db, bi, Statement(Insert, middle, args), rest);
  }

  /** Of the rows that are not in executed batches, the first few have been read. */
  ghost predicate Collected(unread: seq<Values>, left: seq<Values>, counter: nat, args: Values) {
    counter <= |left| && args == Args(left[..counter]) && unread == left[counter..]
  }

  method ExecContext(bi: BatchInsert, db: Database, rows: seq<Values>, breaksOff: bool) returns (outcome: Outcome)
    modifies db
    ensures !Starts(bi) ==> outcome == if bi.columns == [] then NoColumns else if Preparable(bi) then Panicked
        else Refused
    ensures !Starts(bi) ==> db.table == old(db.table) && db.log == old(db.log)
    ensures Starts(bi) ==> Ran(bi, db.faults, old(db.log), old(db.table), db.log, db.table, rows, breaksOff, outcome)
  {
    if bi.columns == [] {
      return NoColumns;
    }
    var batchsize := BatchSize(bi);
    var middle := WriteRowValues(bi.dialect, batchsize, |bi.columns|);
    if !Preparable(bi) {
      return Refused;
    }
    if bi.batchsize < 0 {
      return Panicked;
    }
    outcome := InsertAll(bi, db, batchsize, middle, rows, breaksOff);
  }

  /** What a run comes to: all statements for the rows, or those up to one that fails. */
  ghost predicate Ran(bi: BatchInsert, faults: set<nat>, log: seq<Statement>, table: Table,
                      log1: seq<Statement>, table1: Table, rows: seq<Values>, breaksOff: bool, outcome: Outcome)
    requires bi.columns != [] && Size(bi) > 0
  {
    var stmts := Statements(bi, rows, Size(bi), !breaksOff);
    var end := Play(bi, faults, |log|, table, stmts);
    && table1 == end.table
    && outcome == (if end.failed then Failed else if breaksOff then RowsFailed else Done)
    && (if end.failed then log <= log1 <= log + stmts else log1 == log + stmts)
  }

  method InsertAll(bi: BatchInsert, db: Database, batchsize: nat, middle: seq<seq<Placeholder>>, rows: seq<Values>,
                   breaksOff: bool)
    returns (outcome: Outcome)
    requires bi.columns != [] && batchsize == Size(bi) > 0
    requires middle == Placeholders(bi.dialect, 0, batchsize, |bi.columns|)
    modifies db
    ensures Ran(bi, db.faults, old(db.log), old(db.table), db.log, db.table, rows, breaksOff, outcome)
  {
    ghost var course := Course(bi, db.faults, db.log, db.table, Statements(bi, rows, batchsize, !breaksOff));
    ghost var left, unread := rows, rows;
    var batchcounter: nat := 0;
    var args: Values := [];
    for i := 0 to |rows|
      invariant batchcounter < batchsize && unread == rows[i..] && Collected(unread, left, batchcounter, args)
      invariant course.log <= db.log && course.ReachedBy(db.log, db.table, Statements(bi, left, batchsize, !breaksOff))
    {
      OneMore(unread, left, batchcounter, args);
      assert unread[0] == rows[i];
      unread := unread[1..];
      batchcounter := batchcounter + 1;
      args := args + rows[i];
      if batchcounter >= batchsize {
        var ok := InsertFull(course, db, bi, batchsize, middle, args, left, !breaksOff);
        if !ok {
          return Failed;
        }
        NothingYet(left[batchsize..]);
        left := left[batchsize..];
        batchcounter := 0;
        args := [];
      }
    }
    LastBatch(bi, left, batchsize, !breaksOff);
    if breaksOff {
      return RowsFailed;
    }
    assert left[..batchcounter] == left;
    if batchcounter > 0 {
      outcome := InsertLeftover(course, db, bi, batchcounter, args, left);
      return;
    }
    return Done;
  }

  method InsertFull(ghost course: Course, db: Database, bi: BatchInsert, batchsize: nat,
                    middle: seq<seq<Placeholder>>, args: Values,
                    ghost left: seq<Values>, ghost complete: bool)
    returns (ok: bool)
    requires bi == course.bi && db.faults == course.faults && course.log <= db.log
    requires middle == Placeholders(bi.dialect, 0, batchsize, |bi.columns|)
    requires 0 < batchsize <= |left| && args == Args(left[..batchsize])
    requires course.ReachedBy(db.log, db.table, Statements(bi, left, batchsize, complete))
    modifies db
    ensures ok ==> course.log <= db.log && course.ReachedBy(db.log, db.table,
                                                            Statements(bi, left[batchsize..], batchsize, complete))
    ensures !ok ==> course.StoppedAt(db.log, db.table)
  {
    ghost var rest := FullBatch(bi, left, batchsize, complete);
    ok := ExecBatch(course, db, bi, middle, args, left[..batchsize], rest);
  }

  method InsertLeftover(ghost course: Course, db: Database, bi: BatchInsert, batchcounter: nat, args: Values,
                        ghost left: seq<Values>)
    returns (outcome: Outcome)
    requires bi == course.bi && db.faults == course.faults && course.log <= db.log
    requires batchcounter == |left| && args == Args(left) && course.ReachedBy(db.log, db.table, ForBatch(bi, left))
    modifies db
    ensures outcome == if course.End().failed then Failed else Done
    ensures db.table == course.End().table
    ensures if course.End().failed then course.log <= db.log <= course.log + course.stmts
        else db.log == course.log + course.stmts
  {
    var middle := WriteRowValues(bi.dialect, batchcounter, |bi.columns|);
    assert ForBatch(bi, left) + [] == ForBatch(bi, left);
    var ok := ExecBatch(course, db, bi, middle, args, left, []);
    return if ok then Done else Failed;
  }

  lemma FullBatch(bi: BatchInsert, rows: seq<Values>, size: nat, complete: bool) returns (rest: seq<Statement>)
    requires 0 < size <= |rows|
    ensures rest == Statements(bi, rows[size..], size, complete)
    ensures Statements(bi, rows, size, complete) == ForBatch(bi, rows[..size]) + rest
  {
    rest := Statements(bi, rows[size..], size, complete);
  }

  lemma LastBatch(bi: BatchInsert, rows: seq<Values>, size: nat, complete: bool)
    requires |rows| < size
    ensures Statements(bi, rows, size, complete) == if rows == [] || !complete then [] else ForBatch(bi, rows)
  {
  }

  lemma NothingYet(rows: seq<Values>)
    ensures Collected(rows, rows, 0, [])
  {
  }

  lemma OneMore(unread: seq<Values>, left: seq<Values>, counter: nat, args: Values)
    requires Collected(unread, left, counter, args) && unread != []
    ensures Collected(unread[1..], left, counter + 1, args + unread[0])
  {
    assert left[..counter + 1] == left[..counter] + [left[counter]];
    ArgsConcat(left[..counter], [left[counter]]);
    assert Args([left[counter]]) == left[counter];
  }
}
