/** The subsetter: an object that collects subset queries and writes, for each table, the
    query that dumps the rows they pull in. */
module Subsetting {
  import opened Common
  import opened ForeignKeys
  import opened JoinSearch
  import opened SubsetRows
  import opened SubsetIntegrity
  import opened JoinSql

  /** The primary keys a subset query returned. */
  datatype QueryResult = QueryResult(columns: seq<string>, records: seq<seq<int>>)

  datatype SubsetError = Success | NoTableFound | NoPrimaryKey

  /** The query of one table: the results it needs, one SELECT DISTINCT for each chain,
      united, and the table joined to them on its primary key. */
  datatype Dump = Dump(table: TableID, key: seq<string>, results: seq<nat>, selects: seq<FromClause>)

  function At<T>(m: map<TableID, seq<T>>, id: TableID): seq<T> {
    if id in m then m[id] else []
  }

  function Digits(n: nat): string {
    (if n < 10 then "" else Digits(n / 10)) + [['0', '1', '2', '3', '4', '5', '6', '7', '8', '9'][n % 10]]
  }

  /** The common table expression that holds the results of query number n. */
  function QueryTable(n: nat): TableID {
    TableID("", "query" + Digits(n) + "_")
  }

  /** The chains of one table, over all subset queries so far. */
  ghost function AllJoins(runs: seq<SubsetRun>, id: TableID): seq<Join> {
    if runs == [] then [] else AllJoins(runs[..|runs| - 1], id) + JoinsOf(runs[|runs| - 1].joins, id)
  }

  /** The subset queries that involve a table. */
  ghost function Involving(runs: seq<SubsetRun>, id: TableID): seq<nat> {
    if runs == [] then []
    else Involving(runs[..|runs| - 1], id) + (if id in runs[|runs| - 1].joins then [|runs| - 1] else [])
  }

  /** The tables of some of the results, by the names the dump queries use. */
  ghost function WithResults(db: Database, results: seq<QueryResult>, nums: seq<nat>): Database {
    if results == [] then db
    else
      var rest, last := WithResults(db, results[..|results| - 1], nums), results[|results| - 1];
      if |results| - 1 in nums then rest[QueryTable(|results|) := QueryRows(last.columns, Records(last))] else rest
  }

  ghost function Records(result: QueryResult): set<seq<int>> {
    set record | record in result.records
  }

  /** The rows a dump query returns. It has the results that it lists, as common table expressions, and no others. */
  ghost predicate Returned(db: Database, results: seq<QueryResult>, dump: Dump, row: Row) {
    && row in RowsOf(db, dump.table) && Filled(row, dump.key)
    && exists sql, s :: sql in dump.selects && s in RowsOf(db, dump.table)
                        && SqlSelects(WithResults(db, results, dump.results), sql, s)
                        && Filled(s, dump.key) && Tuple(s, dump.key) == Tuple(row, dump.key)
  }

  /** No catalog table bears the name of a query's results, and primary keys have no
      repeated columns. */
  ghost predicate WellNamed(catalog: Catalog) {
    && (forall table, n :: table in catalog && n > 0 ==> table.id != QueryTable(n))
    && (forall id {:trigger PrimaryKeyOf(catalog, id)} :: HasKey(catalog, id) ==>
       NoRepeats(PrimaryKeyOf(catalog, id).value))
  }

  /** The run number i: its chains are good, and its base key stands for its results. */
  ghost predicate GoodRun(catalog: Catalog, run: SubsetRun, result: QueryResult, i: nat) {
    && GoodJoins(catalog, run.base, run.baseKey, run.joins)
    && (forall id :: id in run.joins ==> HasTable(catalog, id))
    && PrimaryKeyOf(catalog, run.base) == Some(result.columns) && run.records == Records(result)
    && run.baseKey.table == QueryTable(i + 1) && run.baseKey.references == run.base
    && run.baseKey.columns == result.columns && run.baseKey.referencesColumns == result.columns
  }

  ghost predicate AllGood(catalog: Catalog, runs: seq<SubsetRun>, results: seq<QueryResult>) {
    && |results| == |runs|
    && (forall i {:trigger GoodRun(catalog, runs[i], results[i], i)} :: 0 <= i < |runs| ==>
          GoodRun(catalog, runs[i], results[i], i))
  }

  lemma AllGoodSnoc(catalog: Catalog, runs: seq<SubsetRun>, results: seq<QueryResult>, run: SubsetRun,
                    result: QueryResult)
    requires AllGood(catalog, runs, results) && GoodRun(catalog, run, result, |results|)
    ensures AllGood(catalog, runs + [run], results + [result])
  {
    var runs', results' := runs + [run], results + [result];
    forall i | 0 <= i < |runs'| ensures GoodRun(catalog, runs'[i], results'[i], i) {
      if i < |runs| {
        assert GoodRun(catalog, runs[i], results[i], i);
      }
    }
  }

  // ----- what a dump query returns -----

  lemma {:induction false} DigitsInjective(m: nat, n: nat)
    requires Digits(m) == Digits(n)
    ensures m == n
  {
    assert Digits(m)[|Digits(m)| - 1] == Digits(n)[|Digits(n)| - 1];
    assert Digits(m)[..|Digits(m)| - 1] == (if m < 10 then "" else Digits(m / 10));
    assert Digits(n)[..|Digits(n)| - 1] == (if n < 10 then "" else Digits(n / 10));
    if m >= 10 && n >= 10 {
      DigitsInjective(m / 10, n / 10);
    }
  }

  lemma QueryTablesDiffer(m: nat, n: nat)
    requires QueryTable(m) == QueryTable(n)
    ensures m == n
  {
    var a, b := QueryTable(m).name, QueryTable(n).name;
    assert a[5..|a| - 1] == Digits(m) && b[5..|b| - 1] == Digits(n);
    DigitsInjective(m, n);
  }

  /** Each query's results are found under its name, and nothing else changes. */
  lemma {:induction false} ResultsAt(catalog: Catalog, db: Database, results: seq<QueryResult>, nums: seq<nat>, i: nat)
    requires i < |results| && i in nums
    ensures QueryTable(i + 1) in WithResults(db, results, nums)
    ensures WithResults(db, results, nums)[QueryTable(i + 1)] == QueryRows(results[i].columns, Records(results[i]))
  {
    if i < |results| - 1 {
      ResultsAt(catalog, db, results[..|results| - 1], nums, i);
      if QueryTable(i + 1) == QueryTable(|results|) {
        QueryTablesDiffer(i + 1, |results|);
      }
    }
  }

  /** A result that is not listed is not there. */
  lemma {:induction false} UnlistedIsAbsent(db: Database, results: seq<QueryResult>, nums: seq<nat>, i: nat)
    requires i !in nums && QueryTable(i + 1) !in db
    ensures QueryTable(i + 1) !in WithResults(db, results, nums)
  {
    if results == [] {
    } else {
      UnlistedIsAbsent(db, results[..|results| - 1], nums, i);
      if QueryTable(i + 1) == QueryTable(|results|) {
        QueryTablesDiffer(i + 1, |results|);
      }
    }
  }

  lemma {:induction false} TablesKept(catalog: Catalog, db: Database, results: seq<QueryResult>, nums: seq<nat>,
                                      id: TableID)
    requires WellNamed(catalog) && HasTable(catalog, id)
    ensures RowsOf(WithResults(db, results, nums), id) == RowsOf(db, id)
  {
    if results == [] {
    } else {
      TablesKept(catalog, db, results[..|results| - 1], nums, id);
    }
  }

  lemma {:induction false} AllJoinsMember(runs: seq<SubsetRun>, id: TableID, j: Join)
    ensures j in AllJoins(runs, id) <==> exists run :: run in runs && j in JoinsOf(run.joins, id)
  {
    if runs == [] {
    } else {
      AllJoinsMember(runs[..|runs| - 1], id, j);
      assert runs == runs[..|runs| - 1] + [runs[|runs| - 1]];
      if j in JoinsOf(runs[|runs| - 1].joins, id) {
        assert runs[|runs| - 1] in runs;
      } else if j in AllJoins(runs[..|runs| - 1], id) {
        var run :| run in runs[..|runs| - 1] && j in JoinsOf(run.joins, id);
        assert run in runs;
      }
    }
  }

  lemma {:induction false} InvolvingEmpty(runs: seq<SubsetRun>, id: TableID)
    requires Involving(runs, id) == []
    ensures forall run :: run in runs ==> id !in run.joins
  {
    if runs == [] {
    } else {
      InvolvingEmpty(runs[..|runs| - 1], id);
      assert runs == runs[..|runs| - 1] + [runs[|runs| - 1]];
    }
  }

  lemma {:induction false} InvolvingMember(runs: seq<SubsetRun>, id: TableID, i: nat)
    requires i < |runs| && id in runs[i].joins
    ensures i in Involving(runs, id)
  {
    if i == |runs| - 1 {
    } else {
      InvolvingMember(runs[..|runs| - 1], id, i);
    }
  }

  /** The chain of a run, its key, and the name of its results fit together. */
  lemma RunSetting(catalog: Catalog, run: SubsetRun, result: QueryResult, i: nat, id: TableID, j: Join)
    requires Closed(catalog) && WellNamed(catalog) && GoodRun(catalog, run, result, i)
    requires j in JoinsOf(run.joins, id)
    ensures Setting(catalog, run.base, run.baseKey, j, result.columns) && End(j) == id
    ensures forall k :: 0 <= k < |j.tableIDs| ==> HasTable(catalog, j.tableIDs[k])
  {
    assert j in run.joins[id];
    forall k | 0 <= k < |j.tableIDs| ensures HasTable(catalog, j.tableIDs[k]) {
      TablesOnPathAreKeys(catalog, run.base, run.baseKey, run.joins, j, k);
    }
  }

  lemma SameChains(catalog: Catalog, db: Database, results: seq<QueryResult>, nums: seq<nat>, records: set<seq<int>>,
                   j: Join, row: Row)
    requires WellNamed(catalog) && forall k :: 0 <= k < |j.tableIDs| ==> HasTable(catalog, j.tableIDs[k])
    ensures Selects(catalog, WithResults(db, results, nums), records, j, row) <==> Selects(catalog, db, records, j, row)
  {
    var with := WithResults(db, results, nums);
    forall k | 0 <= k < |j.tableIDs| ensures RowsOf(with, j.tableIDs[k]) == RowsOf(db, j.tableIDs[k]) {
      TablesKept(catalog, db, results, nums, j.tableIDs[k]);
    }
    forall rows ensures Chain(catalog, with, records, j, rows) <==> Chain(catalog, db, records, j, rows) {
    }
  }

  /** The SELECT written for a chain of run i selects what the chain selects. */
  lemma SelectMeansChain(catalog: Catalog, db: Database, runs: seq<SubsetRun>, results: seq<QueryResult>,
                         nums: seq<nat>, i: nat, id: TableID, j: Join, row: Row)
    requires Closed(catalog) && WellNamed(catalog) && AllGood(catalog, runs, results) && i < |runs| && i in nums
    requires j in JoinsOf(runs[i].joins, id)
    ensures j.tableIDs != [] && (forall c :: c in j.fkeys ==> Paired(c)) && SqlOf(j).Sql?
    ensures SqlSelects(WithResults(db, results, nums), SqlOf(j).text, row)
       <==> Selects(catalog, db, runs[i].records, j, row)
  {
    var run, result := runs[i], results[i];
    assert GoodRun(catalog, run, result, i);
    RunSetting(catalog, run, result, i, id, j);
    var with := WithResults(db, results, nums);
    ResultsAt(catalog, db, results, nums, i);
    assert WithQuery(with, run.baseKey, result.columns, run.records) == with;
    SqlMeansChain(catalog, run.base, run.baseKey, j, result.columns, with, run.records, row);
    SameChains(catalog, db, results, nums, run.records, j, row);
  }

  /** The SELECT is what the SQL writer makes of the chain. */
  ghost predicate Written(j: Join, sql: FromClause) {
    j.tableIDs != [] && (forall c :: c in j.fkeys ==> Paired(c)) && SqlOf(j) == Sql(sql)
  }

  ghost predicate AllWritten(joins: seq<Join>, selects: seq<FromClause>) {
    |selects| == |joins| && forall i {:trigger Written(joins[i], selects[i])} :: 0 <= i < |joins| ==>
        Written(joins[i], selects[i])
  }

  lemma AllWrittenSnoc(joins: seq<Join>, selects: seq<FromClause>, j: Join, sql: FromClause)
    requires AllWritten(joins, selects) && Written(j, sql)
    ensures AllWritten(joins + [j], selects + [sql])
  {
    var joins', selects' := joins + [j], selects + [sql];
    forall i | 0 <= i < |joins'| ensures Written(joins'[i], selects'[i]) {
      if i < |joins| {
        assert Written(joins[i], selects[i]);
      }
    }
  }

  /** The dump query written from the chains of a table. */
  ghost predicate DumpOf(catalog: Catalog, runs: seq<SubsetRun>, id: TableID, dump: Dump) {
    && dump.table == id && PrimaryKeyOf(catalog, id) == Some(dump.key) && dump.results == Involving(runs, id)
    && AllWritten(AllJoins(runs, id), dump.selects)
  }

  /** The dump query returns exactly the rows some subset query pulls in. */
  lemma ReturnedIsDumped(catalog: Catalog, db: Database, runs: seq<SubsetRun>, results: seq<QueryResult>,
                         id: TableID, dump: Dump, row: Row)
    requires Closed(catalog) && WellNamed(catalog) && AllGood(catalog, runs, results) && DumpOf(catalog, runs, id, dump)
    ensures Returned(db, results, dump, row) <==> DumpedByAny(catalog, db, runs, id, row)
  {
    if Returned(db, results, dump, row) {
      var sql, s :| sql in dump.selects && s in RowsOf(db, dump.table)
          && SqlSelects(WithResults(db, results, dump.results), sql, s)
                    && Filled(s, dump.key) && Tuple(s, dump.key) == Tuple(row, dump.key);
      var i, j := RunOfSelect(catalog, db, runs, results, id, dump, sql, s);
      assert Dumped(catalog, db, runs[i].records, runs[i].joins, id, row);
    }
    if DumpedByAny(catalog, db, runs, id, row) {
      var run :| run in runs && Dumped(catalog, db, run.records, run.joins, id, row);
      var j, s :| j in JoinsOf(run.joins, id) && s in RowsOf(db, id) && Selects(catalog, db, run.records, j, s)
                  && Filled(s, dump.key) && Tuple(s, dump.key) == Tuple(row, dump.key);
      var sql := SelectOfRun(catalog, db, runs, results, id, dump, run, j, s);
    }
  }

  lemma RunOfSelect(catalog: Catalog, db: Database, runs: seq<SubsetRun>, results: seq<QueryResult>,
                    id: TableID, dump: Dump, sql: FromClause, s: Row) returns (i: nat, j: Join)
    requires Closed(catalog) && WellNamed(catalog) && AllGood(catalog, runs, results) && DumpOf(catalog, runs, id, dump)
    requires sql in dump.selects && SqlSelects(WithResults(db, results, dump.results), sql, s)
    ensures i < |runs| && j in JoinsOf(runs[i].joins, id) && Selects(catalog, db, runs[i].records, j, s)
  {
    var n :| 0 <= n < |dump.selects| && dump.selects[n] == sql;
    j := AllJoins(runs, id)[n];
    assert Written(j, sql);
    AllJoinsMember(runs, id, j);
    var run :| run in runs && j in JoinsOf(run.joins, id);
    i :| 0 <= i < |runs| && runs[i] == run;
    InvolvingMember(runs, id, i);
    SelectMeansChain(catalog, db, runs, results, dump.results, i, id, j, s);
  }

  lemma SelectOfRun(catalog: Catalog, db: Database, runs: seq<SubsetRun>, results: seq<QueryResult>,
                    id: TableID, dump: Dump, run: SubsetRun, j: Join, s: Row) returns (sql: FromClause)
    requires Closed(catalog) && WellNamed(catalog) && AllGood(catalog, runs, results) && DumpOf(catalog, runs, id, dump)
    requires run in runs && j in JoinsOf(run.joins, id) && Selects(catalog, db, run.records, j, s)
    ensures sql in dump.selects && SqlSelects(WithResults(db, results, dump.results), sql, s)
  {
    var i :| 0 <= i < |runs| && runs[i] == run;
    AllJoinsMember(runs, id, j);
    var n :| 0 <= n < |AllJoins(runs, id)| && AllJoins(runs, id)[n] == j;
    InvolvingMember(runs, id, i);
    SelectMeansChain(catalog, db, runs, results, dump.results, i, id, j, s);
    sql := dump.selects[n];
    assert Written(j, sql);
  }

  lemma NothingDumped(catalog: Catalog, db: Database, runs: seq<SubsetRun>, id: TableID, row: Row)
    requires !HasKey(catalog, id) || Involving(runs, id) == []
    ensures !DumpedByAny(catalog, db, runs, id, row)
  {
    if Involving(runs, id) == [] {
      InvolvingEmpty(runs, id);
    }
  }

  lemma OneMoreIndexed(before: map<TableID, seq<Constraint>>, index: map<TableID, seq<Constraint>>,
                       constraints: seq<Constraint>, k: nat)
    requires k < |constraints| && forall id :: At(index, id) == At(before, id) + KeysInto(constraints[..k], id)
    ensures var c := constraints[k];
      var next :=
        if c.constraintType == ForeignKey then index[c.references := At(index, c.references) + [c]] else index;
      forall id :: At(next, id) == At(before, id) + KeysInto(constraints[..k + 1], id)
  {
    var c := constraints[k];
    var next := if c.constraintType == ForeignKey then index[c.references := At(index, c.references) + [c]] else index;
    forall id ensures At(next, id) == At(before, id) + KeysInto(constraints[..k + 1], id) {
      assert constraints[..k + 1][..k] == constraints[..k];
      assert At(index, id) == At(before, id) + KeysInto(constraints[..k], id);
    }
  }

  /** All but the tables that are left have got what is new. */
  ghost predicate Gained<T(!new)>(now: map<TableID, seq<T>>, before: map<TableID, seq<T>>, more: map<TableID, seq<T>>,
                            rest: set<TableID>) {
    forall id {:trigger At(now, id)} ::
      At(now, id) == if id in more && id !in rest then At(before, id) + more[id] else At(before, id)
  }

  lemma OneMoreGained<T(!new)>(now: map<TableID, seq<T>>, before: map<TableID, seq<T>>, more: map<TableID, seq<T>>,
                         rest: set<TableID>, id: TableID)
    requires Gained(now, before, more, rest) && id in rest && id in more
    ensures Gained(now[id := At(now, id) + more[id]], before, more, rest - {id})
  {
    var next := now[id := At(now, id) + more[id]];
    forall other
      ensures At(next, other) == if other in more && other !in rest - {id} then At(before, other) + more[other]
                                 else At(before, other)
    {
      assert At(now, other) == if other in more && other !in rest then At(before, other) + more[other]
                               else At(before, other);
    }
  }

  class Subsetter {
    const catalog: Catalog
    var referencedBy: map<TableID, seq<Constraint>>
    var results: seq<QueryResult>
    var tableResults: map<TableID, seq<nat>>
    var tableJoins: map<TableID, seq<Join>>
    ghost var runs: seq<SubsetRun>

    ghost predicate Valid()
      reads this
    {
      && Closed(catalog) && WellNamed(catalog)
      && (forall id :: At(referencedBy, id) == ReferencedBy(catalog, id))
      && AllGood(catalog, runs, results)
      && (forall id :: At(tableJoins, id) == AllJoins(runs, id))
      && (forall id :: At(tableResults, id) == Involving(runs, id))
    }

    constructor (catalog: Catalog)
      requires Closed(catalog) && WellNamed(catalog)
      ensures Valid() && this.catalog == catalog && runs == []
    {
      this.catalog := catalog;
      results, tableResults, tableJoins, runs := [], map[], map[], [];
      var index := Subsetter.Index(catalog);
      referencedBy := index;
    }

    /** For every table the foreign keys that reference it, in catalog order. */
    static method Index(catalog: Catalog) returns (index: map<TableID, seq<Constraint>>)
      ensures forall id :: At(index, id) == ReferencedBy(catalog, id)
    {
      index := map[];
      for i := 0 to |catalog|
        invariant forall id :: At(index, id) == ReferencedBy(catalog[..i], id)
      {
        assert catalog[..i + 1][..i] == catalog[..i];
        index := IndexTable(index, catalog[i].constraints);
      }
      assert catalog[..|catalog|] == catalog;
    }

    static method IndexTable(before: map<TableID, seq<Constraint>>, constraints: seq<Constraint>)
      returns (index: map<TableID, seq<Constraint>>)
      ensures forall id :: At(index, id) == At(before, id) + KeysInto(constraints, id)
    {
      index := before;
      for k := 0 to |constraints|
        invariant forall id :: At(index, id) == At(before, id) + KeysInto(constraints[..k], id)
      {
        OneMoreIndexed(before, index, constraints, k);
        if constraints[k].constraintType == ForeignKey {
          index := index[constraints[k].references := At(index, constraints[k].references) + [constraints[k]]];
        }
      }
      assert constraints[..|constraints|] == constraints;
    }

    /** The chains that do not pass through the table yet, extended to it. */
    static method NewJoins(baseJoins: seq<Join>, c: Constraint, id: TableID) returns (newJoins: seq<Join>)
      ensures newJoins == Extend(baseJoins, c, id)
    {
      newJoins := [];
      for n := 0 to |baseJoins|
        invariant newJoins == Extend(baseJoins[..n], c, id)
      {
        var baseJoin := baseJoins[n];
        assert baseJoins[..n + 1][..n] == baseJoins[..n];
        var duplicateTable := false;
        for k := 0 to |baseJoin.tableIDs|
          invariant !duplicateTable && id !in baseJoin.tableIDs[..k]
        {
          if id == baseJoin.tableIDs[k] {
            duplicateTable := true;
            break;
          }
        }
        assert duplicateTable <==> id in baseJoin.tableIDs;
        if !duplicateTable {
          newJoins := newJoins + [Join(baseJoin.tableIDs + [id], baseJoin.fkeys + [c])];
        }
      }
      assert baseJoins[..|baseJoins|] == baseJoins;
    }

    /** One of the two worklist loops, in the given direction. */
    method Loop(dir: Direction, start: Search) returns (joins: Joins, visited: set<Constraint>)
      requires Valid() && Queued(catalog, start)
      ensures Run(catalog, dir, start) == Search(joins, visited, [])
    {
      joins, visited := start.joins, start.visited;
      var toVisit := start.toVisit;
      while |toVisit| > 0
        invariant Queued(catalog, Search(joins, visited, toVisit))
        invariant Run(catalog, dir, start) == Run(catalog, dir, Search(joins, visited, toVisit))
        decreases AllConstraints(catalog) - visited, |toVisit|
      {
        ghost var st := Search(joins, visited, toVisit);
        StepQueued(catalog, dir, st);
        var constraint := toVisit[|toVisit| - 1];
        toVisit := toVisit[..|toVisit| - 1];
        if constraint.constraintType != ForeignKey || constraint in visited {
          assert Step(catalog, dir, st) == Search(joins, visited, toVisit);
          continue;
        }
        visited := visited + {constraint};
        var newJoins := NewJoins(At(joins, Tail(dir, constraint)), constraint, Head(dir, constraint));
        joins := joins[Head(dir, constraint) := At(joins, Head(dir, constraint)) + newJoins];
        if dir.Parentward? {
          toVisit := toVisit + ConstraintsOf(catalog, constraint.references);
        } else {
          toVisit := toVisit + At(referencedBy, constraint.table);
        }
        assert Step(catalog, dir, st) == Search(joins, visited, toVisit);
      }
    }

    /** The join search of one subset query. The code sorts the tables of the first phase;
        here they are taken in any order. */
    method FindJoins(base: TableID, baseKey: Constraint, extended: bool) returns (joins: Joins)
      requires Valid()
      ensures !extended ==> joins == PlainSearch(catalog, base, baseKey).joins
      ensures extended ==> exists order :: Lists(order, ChildSearch(catalog, base, baseKey).joins.Keys)
                                           && joins == ExtendedSearch(catalog, base, baseKey, order).joins
    {
      var visited: set<Constraint>;
      StartQueued(catalog, Parentward, [base]);
      StartQueued(catalog, Childward, [base]);
      assert base in [base];
      if !extended {
        joins, visited := Loop(Parentward, Search(StartJoins(base, baseKey), {}, ConstraintsOf(catalog, base)));
      } else {
        joins, visited := Loop(Childward, Search(StartJoins(base, baseKey), {}, At(referencedBy, base)));
        ghost var children := joins.Keys;
        var toVisit: seq<Constraint> := [];
        var rest := joins.Keys;
        ghost var order: seq<TableID> := [];
        while rest != {}
          invariant rest <= children && Lists(order, children - rest)
          invariant toVisit == ConstraintsOfAll(catalog, order)
          decreases rest
        {
          var id :| id in rest;
          rest := rest - {id};
          assert (order + [id])[..|order|] == order;
          order := order + [id];
          toVisit := toVisit + ConstraintsOf(catalog, id);
        }
        StartQueued(catalog, Parentward, order);
        joins, visited := Loop(Parentward, Search(joins, visited, toVisit));
        assert Lists(order, ChildSearch(catalog, base, baseKey).joins.Keys)
               && joins == ExtendedSearch(catalog, base, baseKey, order).joins;
      }
    }

    /** The lookups Subset starts with: the table, then its primary key. */
    method Lookup(base: TableID) returns (err: SubsetError, key: seq<string>)
      ensures err == NoTableFound <==> !HasTable(catalog, base)
      ensures err == NoPrimaryKey <==> HasTable(catalog, base) && !HasKey(catalog, base)
      ensures err == Success ==> PrimaryKeyOf(catalog, base) == Some(key)
      ensures err == NoTableFound <==> forall i :: 0 <= i < |catalog| ==> catalog[i].id != base
      ensures err == NoPrimaryKey <==> Keyless(catalog, base)
      ensures err == Success ==> KeyedBy(catalog, base, key)
    {
      key := [];
      KeyExactly(catalog, base, key);
      if !HasTable(catalog, base) {
        err := NoTableFound;
      } else {
        match PrimaryKeyOf(catalog, base)
        case None => err := NoPrimaryKey;
        case Some(columns) =>
          KeyExactly(catalog, base, columns);
          err, key := Success, columns;
      }
    }

    /** Subset and ExtendedSubset, after the query has been run: `records` are the primary
        keys it returned. On an error nothing changes; otherwise the search of this query
        is added to what the earlier ones found. */
    method Subset(base: TableID, records: seq<seq<int>>, extended: bool) returns (err: SubsetError)
      requires Valid()
      modifies this`results, this`tableResults, this`tableJoins, this`runs
      ensures Valid()
      ensures err == NoTableFound <==> !HasTable(catalog, base)
      ensures err == NoPrimaryKey <==> Keyless(catalog, base)
      ensures err != Success ==> runs == old(runs)
      ensures err == Success ==>
                && |runs| == |old(runs)| + 1 && runs[..|runs| - 1] == old(runs)
                && var run := runs[|runs| - 1];
                && run.base == base && KeyedBy(catalog, base, run.baseKey.columns)
                && run.baseKey.referencesColumns == run.baseKey.columns
                && run.records == (set record | record in records)
                && (!extended ==> run.joins == PlainSearch(catalog, base, run.baseKey).joins)
                && (extended ==> exists order :: Lists(order, ChildSearch(catalog, base, run.baseKey).joins.Keys)
                                                 && run.joins == ExtendedSearch(catalog, base, run.baseKey,
                                                    order).joins)
    {
      var key;
      err, key := Lookup(base);
      if err != Success {
        return;
      }
      var baseKey := Constraint(0, ForeignKey, QueryTable(|results| + 1), key, base, key);
      var joins := FindJoins(base, baseKey, extended);
      ghost var run := SubsetRun(base, baseKey, (set record | record in records), joins);
      FoundJoinsAreGood(base, baseKey, extended, joins);
      assert GoodRun(catalog, run, QueryResult(key, records), |results|);
      Add(joins, QueryResult(key, records), run);
    }

    lemma FoundJoinsAreGood(base: TableID, baseKey: Constraint, extended: bool, joins: Joins)
      requires Valid() && HasTable(catalog, base)
      requires !extended ==> joins == PlainSearch(catalog, base, baseKey).joins
      requires extended ==> exists order :: Lists(order, ChildSearch(catalog, base, baseKey).joins.Keys)
                                            && joins == ExtendedSearch(catalog, base, baseKey, order).joins
      ensures GoodJoins(catalog, base, baseKey, joins)
      ensures forall id :: id in joins ==> HasTable(catalog, id)
    {
      if !extended {
        StoredChainsAreSimplePaths(catalog, base, baseKey, []);
      } else {
        var order :| Lists(order, ChildSearch(catalog, base, baseKey).joins.Keys)
                     && joins == ExtendedSearch(catalog, base, baseKey, order).joins;
        StoredChainsAreSimplePaths(catalog, base, baseKey, order);
      }
      forall id | id in joins ensures HasTable(catalog, id) {
        assert joins[id][0] in joins[id];
        PathEndsInTable(base, baseKey, joins[id][0]);
      }
    }

    lemma PathEndsInTable(base: TableID, baseKey: Constraint, j: Join)
      requires Valid() && HasTable(catalog, base) && SimplePath(catalog, base, baseKey, j)
      ensures HasTable(catalog, End(j))
    {
      if |j.tableIDs| > 1 {
        OutgoingMember(catalog, Parentward, End(j), j.fkeys[|j.fkeys| - 1]);
      }
    }

    /** The last loop of a search: its chains join those of the earlier ones, table by table. */
    static method Merge(oldJoins: map<TableID, seq<Join>>, oldResults: map<TableID, seq<nat>>, joins: Joins, num: nat)
      returns (newJoins: map<TableID, seq<Join>>, newResults: map<TableID, seq<nat>>)
      ensures forall id :: At(newJoins, id) == At(oldJoins, id) + JoinsOf(joins, id)
      ensures forall id :: At(newResults, id) == At(oldResults, id) + (if id in joins then [num] else [])
    {
      newJoins, newResults := oldJoins, oldResults;
      ghost var nums := map id | id in joins :: [num];
      var rest := joins.Keys;
      while rest != {}
        invariant rest <= joins.Keys && Gained(newJoins, oldJoins, joins, rest)
        invariant Gained(newResults, oldResults, nums, rest)
        decreases rest
      {
        var id :| id in rest;
        OneMoreGained(newJoins, oldJoins, joins, rest, id);
        OneMoreGained(newResults, oldResults, nums, rest, id);
        rest := rest - {id};
        newResults := newResults[id := At(newResults, id) + [num]];
        newJoins := newJoins[id := At(newJoins, id) + joins[id]];
      }
      assert forall id :: id in nums <==> id in joins;
    }

    method Add(joins: Joins, result: QueryResult, ghost run: SubsetRun)
      requires Valid() && run.joins == joins && GoodRun(catalog, run, result, |results|)
      modifies this`results, this`tableResults, this`tableJoins, this`runs
      ensures Valid() && runs == old(runs) + [run]
    {
      AllGoodSnoc(catalog, runs, results, run, result);
      results := results + [result];
      tableJoins, tableResults := Merge(tableJoins, tableResults, joins, |results| - 1);
      runs := runs + [run];
      assert runs[..|runs| - 1] == old(runs);
    }

    /** The query that dumps a table, or None where the code returns the empty string. On
        every database it returns exactly the rows that the subset queries pull in; where
        there is no query there are none. */
    method Query(id: TableID) returns (dump: Option<Dump>)
      requires Valid()
      ensures dump.None? <==> !HasTable(catalog, id) || !HasKey(catalog, id) || Involving(runs, id) == []
      ensures dump.Some? ==> DumpOf(catalog, runs, id, dump.value)
      ensures forall db, row :: DumpedByAny(catalog, db, runs, id, row) <==>
                                dump.Some? && Returned(db, results, dump.value, row)
    {
      var err, key := Lookup(id);
      var nums := At(tableResults, id);
      if err != Success || |nums| == 0 {
        assert err == NoTableFound ==> !HasKey(catalog, id) by { NoTableNoKey(id); }
        forall db, row ensures !DumpedByAny(catalog, db, runs, id, row) {
          NothingDumped(catalog, db, runs, id, row);
        }
        return None;
      }
      var joins := At(tableJoins, id);
      var selects: seq<FromClause> := [];
      for i := 0 to |joins|
        invariant AllWritten(joins[..i], selects)
      {
        StoredChainConnects(id, joins[i]);
        var r := ToSql(joins[i]);
        AllWrittenSnoc(joins[..i], selects, joins[i], r.text);
        assert joins[..i + 1] == joins[..i] + [joins[i]];
        selects := selects + [r.text];
      }
      assert joins[..|joins|] == joins;
      dump := Some(Dump(id, key, nums, selects));
      forall db, row ensures DumpedByAny(catalog, db, runs, id, row) <==> Returned(db, results, dump.value, row) {
        ReturnedIsDumped(catalog, db, runs, results, id, dump.value, row);
      }
    }

    lemma NoTableNoKey(id: TableID)
      ensures HasKey(catalog, id) ==> HasTable(catalog, id)
    {
      ConstraintsHaveTable(catalog, id);
    }

    /** The panic of the SQL writer is never reached. */
    lemma StoredChainConnects(id: TableID, j: Join)
      requires Valid() && j in At(tableJoins, id)
      ensures j.tableIDs != [] && (forall c :: c in j.fkeys ==> Paired(c)) && SqlOf(j).Sql?
    {
      AllJoinsMember(runs, id, j);
      var run :| run in runs && j in JoinsOf(run.joins, id);
      var i :| 0 <= i < |runs| && runs[i] == run;
      SelectMeansChain(catalog, map[], runs, results, [i], i, id, j, map[]);
    }
  }
}
