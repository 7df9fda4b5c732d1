/** The SQL written for a chain: a table, and one JOIN clause for each foreign key on the
    way back to the rows of the subset query. */
module JoinSql {
  import opened Common
  import opened ForeignKeys
  import opened JoinSearch
  import opened SubsetRows

  datatype ColumnRef = ColumnRef(table: TableID, column: string)

  /** JOIN table ON left = right AND ... */
  datatype JoinClause = JoinClause(table: TableID, on: seq<(ColumnRef, ColumnRef)>)

  datatype FromClause = FromClause(first: TableID, joins: seq<JoinClause>)

  /** The code panics on a chain whose keys do not connect. */
  datatype Outcome = Sql(text: FromClause) | BrokenChain

  /** `columns1` of table1 equated with `columns2` of table2, written from the side of table2. */
  function Equations(table1: TableID, columns1: seq<string>, table2: TableID,
                     columns2: seq<string>): (on: seq<(ColumnRef, ColumnRef)>)
    requires |columns1| == |columns2|
    ensures |on| == |columns1|
  {
    seq(|columns1|, i requires 0 <= i < |columns1| => (ColumnRef(table2, columns2[i]), ColumnRef(table1, columns1[i])))
  }

  /** The key has as many columns on either side. */
  predicate Paired(c: Constraint) {
    |c.columns| == |c.referencesColumns|
  }

  /** The clause that leads from one end of a foreign key to the other. */
  function Hop(c: Constraint, here: TableID): JoinClause
    requires Paired(c)
  {
    if here == c.table then JoinClause(c.references, Equations(c.table, c.columns, c.references, c.referencesColumns))
    else JoinClause(c.table, Equations(c.references, c.referencesColumns, c.table, c.columns))
  }

  /** The clauses for a list of keys, last key first, or None where the chain breaks. */
  function Hops(fkeys: seq<Constraint>, here: TableID): Option<seq<JoinClause>>
    requires forall c :: c in fkeys ==> Paired(c)
  {
    if fkeys == [] then Some([])
    else
      var c := fkeys[|fkeys| - 1];
      if here != c.table && here != c.references then None
      else
        Then([Hop(c, here)], Hops(fkeys[..|fkeys| - 1], Hop(c, here).table))
  }

  /** The clauses written already, followed by the rest. */
  function Then(clauses: seq<JoinClause>, rest: Option<seq<JoinClause>>): Option<seq<JoinClause>> {
    match rest case None => None case Some(more) => Some(clauses + more)
  }

  lemma ThenHop(clauses: seq<JoinClause>, clause: JoinClause, rest: Option<seq<JoinClause>>)
    ensures Then(clauses, Then([clause], rest)) == Then(clauses + [clause], rest)
  {
    if rest.Some? {
      assert clauses + ([clause] + rest.value) == clauses + [clause] + rest.value;
    }
  }

  lemma ThenNothing(rest: Option<seq<JoinClause>>)
    ensures Then([], rest) == rest
  {
    if rest.Some? {
      assert [] + rest.value == rest.value;
    }
  }

  function SqlOf(j: Join): Outcome
    requires j.tableIDs != [] && forall c :: c in j.fkeys ==> Paired(c)
  {
    match Hops(j.fkeys, End(j))
    case None => BrokenChain
    case Some(clauses) => Sql(FromClause(End(j), clauses))
  }

  method ToSql(j: Join) returns (r: Outcome)
    requires j.tableIDs != [] && forall c :: c in j.fkeys ==> Paired(c)
    ensures r == SqlOf(j)
  {
    var tableID := j.tableIDs[|j.tableIDs| - 1];
    var clauses: seq<JoinClause> := [];
    var table2 := tableID;
    var i := |j.fkeys|;
    assert j.fkeys[..i] == j.fkeys;
    ThenNothing(Hops(j.fkeys, tableID));
    while i > 0
      invariant 0 <= i <= |j.fkeys|
      invariant Hops(j.fkeys, tableID) == Then(clauses, Hops(j.fkeys[..i], table2))
    {
      i := i - 1;
      var fkey := j.fkeys[i];
      assert Paired(fkey) && j.fkeys[..i + 1][..i] == j.fkeys[..i] && j.fkeys[..i + 1][i] == fkey;
      ghost var here := table2;
      var table1, columns1, columns2;
      if table2 == fkey.table {
        table1, columns1 := fkey.table, fkey.columns;
        table2, columns2 := fkey.references, fkey.referencesColumns;
      } else if table2 == fkey.references {
        table1, columns1 := fkey.references, fkey.referencesColumns;
        table2, columns2 := fkey.table, fkey.columns;
      } else {
        return BrokenChain;
      }
      var on: seq<(ColumnRef, ColumnRef)> := [];
      for k := 0 to |columns1|
        invariant on == Equations(table1, columns1, table2, columns2)[..k]
      {
        on := on + [(ColumnRef(table2, columns2[k]), ColumnRef(table1, columns1[k]))];
      }
      assert JoinClause(table2, on) == Hop(fkey, here);
      ThenHop(clauses, Hop(fkey, here), Hops(j.fkeys[..i], table2));
      clauses := clauses + [JoinClause(table2, on)];
    }
    assert clauses + [] == clauses;
    r := Sql(FromClause(tableID, clauses));
  }

  // ----- the chain is never broken -----

  /** The key that ties the base to the rows of the query, under a name no table bears. */
  ghost predicate QueryKey(base: TableID, baseKey: Constraint, j: Join) {
    && Paired(baseKey) && baseKey.references == base && baseKey.table !in j.tableIDs
  }

  /** The table the clause number i joins: the chain read backwards, then the query. */
  function Stop(j: Join, i: nat): TableID
    requires i < |j.tableIDs| == |j.fkeys|
  {
    if i < |j.tableIDs| - 1 then j.tableIDs[|j.tableIDs| - 2 - i] else j.fkeys[0].table
  }

  lemma PairedChain(catalog: Catalog, base: TableID, baseKey: Constraint, j: Join)
    requires Closed(catalog) && SimplePath(catalog, base, baseKey, j) && Paired(baseKey)
    ensures forall c :: c in j.fkeys ==> Paired(c)
  {
    forall c | c in j.fkeys ensures Paired(c) {
      var k :| 0 <= k < |j.fkeys| && j.fkeys[k] == c;
      if k > 0 {
        ConstraintsOfMember(catalog, c.table, c);
      }
    }
  }

  lemma {:induction false} HopsOfPrefix(catalog: Catalog, base: TableID, baseKey: Constraint, j: Join, k: nat)
    requires Closed(catalog) && SimplePath(catalog, base, baseKey, j) && QueryKey(base, baseKey, j)
    requires k < |j.fkeys|
    ensures forall c :: c in j.fkeys ==> Paired(c)
    ensures Hops(j.fkeys[..k + 1], j.tableIDs[k]).Some?
    ensures var clauses := Hops(j.fkeys[..k + 1], j.tableIDs[k]).value;
            && |clauses| == k + 1
            && forall m :: 0 <= m <= k ==> clauses[m] == Hop(j.fkeys[k - m], j.tableIDs[k - m])
  {
    PairedChain(catalog, base, baseKey, j);
    var fkeys := j.fkeys[..k + 1];
    assert fkeys[..k] == j.fkeys[..k] && fkeys[k] == j.fkeys[k];
    if k > 0 {
      assert Links(j.fkeys[k], j.tableIDs[k - 1], j.tableIDs[k]);
      HopsOfPrefix(catalog, base, baseKey, j, k - 1);
      assert Hop(j.fkeys[k], j.tableIDs[k]).table == j.tableIDs[k - 1];
    } else {
      assert baseKey.table != j.tableIDs[0];
    }
  }

  /** A chain the search stores is never broken: its SQL joins the tables of the chain in
      reverse order and ends with the rows of the query. */
  lemma ChainIsNotBroken(catalog: Catalog, base: TableID, baseKey: Constraint, j: Join)
    requires Closed(catalog) && SimplePath(catalog, base, baseKey, j) && QueryKey(base, baseKey, j)
    ensures forall c :: c in j.fkeys ==> Paired(c)
    ensures SqlOf(j).Sql? && SqlOf(j).text.first == End(j)
    ensures |SqlOf(j).text.joins| == |j.tableIDs|
    ensures forall i :: 0 <= i < |j.tableIDs| ==>
              && SqlOf(j).text.joins[i].table == Stop(j, i)
              && SqlOf(j).text.joins[i] == Hop(j.fkeys[|j.fkeys| - 1 - i], j.tableIDs[|j.fkeys| - 1 - i])
  {
    var n := |j.fkeys|;
    HopsOfPrefix(catalog, base, baseKey, j, n - 1);
    assert j.fkeys[..n] == j.fkeys;
    forall i | 0 <= i < n
      ensures Hop(j.fkeys[n - 1 - i], j.tableIDs[n - 1 - i]).table == Stop(j, i)
    {
      var k := n - 1 - i;
      if k > 0 {
        assert Links(j.fkeys[k], j.tableIDs[k - 1], j.tableIDs[k]);
      } else {
        assert baseKey.table != j.tableIDs[0];
      }
    }
  }

  // ----- what the SQL selects -----

  /** A row for every table named satisfies the FROM clause: it is in the database, and
      all equations hold between columns that are not NULL. */
  ghost predicate Satisfies(db: Database, sql: FromClause, env: map<TableID, Row>) {
    && sql.first in env && env[sql.first] in RowsOf(db, sql.first)
    && (forall i {:trigger sql.joins[i]} :: 0 <= i < |sql.joins| ==> Joined(db, sql.joins[i], env))
  }

  ghost predicate Joined(db: Database, clause: JoinClause, env: map<TableID, Row>) {
    && clause.table in env && env[clause.table] in RowsOf(db, clause.table)
    && (forall k {:trigger clause.on[k]} :: 0 <= k < |clause.on| ==> Equal(clause.on[k].0, clause.on[k].1, env))
  }

  predicate Equal(left: ColumnRef, right: ColumnRef, env: map<TableID, Row>) {
    && left.table in env && right.table in env
    && left.column in env[left.table] && right.column in env[right.table]
    && env[left.table][left.column] == env[right.table][right.column]
  }

  /** The rows of the common table expression that holds the results of a subset query. */
  ghost function QueryRows(key: seq<string>, records: set<seq<int>>): set<Row> {
    set record | record in records && |record| == |key| :: RecordRow(key, record)
  }

  ghost function RecordRow(key: seq<string>, record: seq<int>): Row
    requires |record| == |key|
  {
    map column | column in key :: ValueFor(key, record, column)
  }

  function ValueFor(key: seq<string>, record: seq<int>, column: string): int
    requires |record| == |key| && column in key
  {
    if key[|key| - 1] == column then record[|key| - 1]
    else ValueFor(key[..|key| - 1], record[..|key| - 1], column)
  }

  lemma {:induction false} ValueForAt(key: seq<string>, record: seq<int>, i: nat)
    requires |record| == |key| && i < |key|
    requires forall a, b :: 0 <= a < b < |key| ==> key[a] != key[b]
    ensures ValueFor(key, record, key[i]) == record[i]
  {
    if i < |key| - 1 {
      ValueForAt(key[..|key| - 1], record[..|key| - 1], i);
    }
  }

  ghost predicate NoRepeats(key: seq<string>) {
    forall a, b :: 0 <= a < b < |key| ==> key[a] != key[b]
  }

  /** The two sides of the clause of a key matched by the rows at its two ends. */
  lemma JoinedIsMatch(db: Database, c: Constraint, here: TableID, env: map<TableID, Row>)
    requires Paired(c) && (here == c.table || here == c.references) && c.table != c.references && here in env
    ensures var there := Hop(c, here).table;
            Joined(db, Hop(c, here), env) <==>
            there in env && env[there] in RowsOf(db, there) && c.table in env && c.references in env
            && Match(c, env[c.table], env[c.references])
  {
    var clause := Hop(c, here);
    if Joined(db, clause, env) {
      forall i | 0 <= i < |c.columns|
        ensures c.columns[i] in env[c.table] && c.referencesColumns[i] in env[c.references]
                && env[c.table][c.columns[i]] == env[c.references][c.referencesColumns[i]]
      {
        assert Equal(clause.on[i].0, clause.on[i].1, env);
      }
    }
    if clause.table in env && env[clause.table] in RowsOf(db, clause.table) && c.table in env && c.references in env
       && Match(c, env[c.table], env[c.references])
    {
      forall k | 0 <= k < |clause.on| ensures Equal(clause.on[k].0, clause.on[k].1, env) {
        assert c.columns[k] in env[c.table];
      }
    }
  }

  /** The setting: a stored chain, the primary key of its base, and the database extended
      by the results of the subset query under the name the base key bears. */
  ghost predicate Setting(catalog: Catalog, base: TableID, baseKey: Constraint, j: Join, key: seq<string>) {
    && Closed(catalog) && SimplePath(catalog, base, baseKey, j) && QueryKey(base, baseKey, j)
    && PrimaryKeyOf(catalog, base) == Some(key) && NoRepeats(key)
    && baseKey.columns == key && baseKey.referencesColumns == key
  }

  ghost function WithQuery(db: Database, baseKey: Constraint, key: seq<string>, records: set<seq<int>>): Database {
    db[baseKey.table := QueryRows(key, records)]
  }

  ghost predicate SqlSelects(db: Database, sql: FromClause, row: Row) {
    exists env :: Satisfies(db, sql, env) && env[sql.first] == row
  }

  /** The environment a chain of rows gives. */
  ghost function EnvOf(j: Join, rows: seq<Row>, query: TableID, first: Row): map<TableID, Row>
    requires |rows| == |j.tableIDs|
  {
    map id | id in (set id | id in j.tableIDs) + {query} ::
      if id == query then first else RowFor(j.tableIDs, rows, id)
  }

  function RowFor(ids: seq<TableID>, rows: seq<Row>, id: TableID): Row
    requires |rows| == |ids|
  {
    if ids == [] then map[]
    else if ids[|ids| - 1] == id then rows[|ids| - 1]
    else RowFor(ids[..|ids| - 1], rows[..|ids| - 1], id)
  }

  lemma {:induction false} RowForAt(ids: seq<TableID>, rows: seq<Row>, k: nat)
    requires |rows| == |ids| && k < |ids| && Distinct(ids)
    ensures RowFor(ids, rows, ids[k]) == rows[k]
  {
    if k < |ids| - 1 {
      assert Differ(ids, k, |ids| - 1);
      var shorter := ids[..|ids| - 1];
      forall a, b | 0 <= a < b < |shorter| ensures Differ(shorter, a, b) {
        assert Differ(ids, a, b);
      }
      RowForAt(shorter, rows[..|ids| - 1], k);
    }
  }

  /** The clause of step k matches the rows at its two ends. */
  lemma ClauseOfStep(catalog: Catalog, base: TableID, baseKey: Constraint, j: Join, key: seq<string>, db: Database,
                     env: map<TableID, Row>, k: nat)
    requires Setting(catalog, base, baseKey, j, key) && 0 < k < |j.tableIDs| && j.tableIDs[k] in env
    ensures Paired(j.fkeys[k])
    ensures Joined(db, Hop(j.fkeys[k], j.tableIDs[k]), env) <==>
            && j.tableIDs[k - 1] in env && env[j.tableIDs[k - 1]] in RowsOf(db, j.tableIDs[k - 1])
            && Linked(j.fkeys[k], j.tableIDs[k - 1], j.tableIDs[k], env[j.tableIDs[k - 1]], env[j.tableIDs[k]])
  {
    PairedChain(catalog, base, baseKey, j);
    assert Differ(j.tableIDs, k - 1, k);
    assert Links(j.fkeys[k], j.tableIDs[k - 1], j.tableIDs[k]);
    JoinedIsMatch(db, j.fkeys[k], j.tableIDs[k], env);
  }

  /** The clause of the base key says that the first row is among the records. */
  lemma ClauseOfBase(catalog: Catalog, base: TableID, baseKey: Constraint, j: Join, key: seq<string>, db: Database,
                     records: set<seq<int>>, env: map<TableID, Row>)
    requires Setting(catalog, base, baseKey, j, key) && base in env
    requires Joined(WithQuery(db, baseKey, key, records), Hop(baseKey, base), env)
    ensures Filled(env[base], key) && Tuple(env[base], key) in records
  {
    assert baseKey.table != j.tableIDs[0];
    var with := WithQuery(db, baseKey, key, records);
    JoinedIsMatch(with, baseKey, base, env);
    var first := env[baseKey.table];
    var record :| record in records && |record| == |key|
                  && first == RecordRow(key, record);
    forall i | 0 <= i < |key| ensures key[i] in env[base] && env[base][key[i]] == record[i] {
      ValueForAt(key, record, i);
      assert baseKey.columns[i] in first;
    }
    assert Tuple(env[base], key) == record;
  }

  /** What an environment satisfying the SQL says about each table of the chain. */
  lemma SqlRow(catalog: Catalog, base: TableID, baseKey: Constraint, j: Join, key: seq<string>, db: Database,
               records: set<seq<int>>, env: map<TableID, Row>, k: nat)
    requires Setting(catalog, base, baseKey, j, key) && k < |j.tableIDs|
    requires (forall c :: c in j.fkeys ==> Paired(c)) && SqlOf(j).Sql?
    requires Satisfies(WithQuery(db, baseKey, key, records), SqlOf(j).text, env)
    ensures j.tableIDs[k] in env && env[j.tableIDs[k]] in RowsOf(db, j.tableIDs[k])
    ensures Joined(WithQuery(db, baseKey, key, records), Hop(j.fkeys[k], j.tableIDs[k]), env)
  {
    var n := |j.tableIDs|;
    ChainIsNotBroken(catalog, base, baseKey, j);
    var sql := SqlOf(j).text;
    assert Hop(j.fkeys[k], j.tableIDs[k]) == sql.joins[n - 1 - k];
    if k < n - 1 {
      assert Joined(WithQuery(db, baseKey, key, records), sql.joins[n - 2 - k], env);
      assert Stop(j, n - 2 - k) == j.tableIDs[k];
    }
    assert j.tableIDs[k] in j.tableIDs;
  }

  /** Every step of the chain, read off the environment. */
  lemma SqlSteps(catalog: Catalog, base: TableID, baseKey: Constraint, j: Join, key: seq<string>, db: Database,
                 records: set<seq<int>>, env: map<TableID, Row>)
    requires Setting(catalog, base, baseKey, j, key)
    requires (forall c :: c in j.fkeys ==> Paired(c)) && SqlOf(j).Sql?
    requires Satisfies(WithQuery(db, baseKey, key, records), SqlOf(j).text, env)
    ensures forall k {:trigger j.tableIDs[k]} :: 0 <= k < |j.tableIDs| ==>
              j.tableIDs[k] in env && env[j.tableIDs[k]] in RowsOf(db, j.tableIDs[k])
    ensures forall k {:trigger j.fkeys[k]} :: 0 < k < |j.tableIDs| ==>
              && j.tableIDs[k - 1] in env && j.tableIDs[k] in env
              && Linked(j.fkeys[k], j.tableIDs[k - 1], j.tableIDs[k], env[j.tableIDs[k - 1]], env[j.tableIDs[k]])
  {
    forall k | 0 <= k < |j.tableIDs|
      ensures j.tableIDs[k] in env && env[j.tableIDs[k]] in RowsOf(db, j.tableIDs[k])
      ensures k > 0 ==> && j.tableIDs[k - 1] in env
                        && Linked(j.fkeys[k], j.tableIDs[k - 1], j.tableIDs[k], env[j.tableIDs[k - 1]],
                                  env[j.tableIDs[k]])
    {
      SqlRow(catalog, base, baseKey, j, key, db, records, env, k);
      if k > 0 {
        ClauseOfStep(catalog, base, baseKey, j, key, WithQuery(db, baseKey, key, records), env, k);
      }
    }
  }

  /** An environment that satisfies the steps is a chain of rows. */
  lemma EnvIsChain(catalog: Catalog, db: Database, records: set<seq<int>>, j: Join, key: seq<string>,
                   env: map<TableID, Row>)
    requires 0 < |j.tableIDs| == |j.fkeys| && PrimaryKeyOf(catalog, j.tableIDs[0]) == Some(key)
    requires forall k {:trigger j.tableIDs[k]} :: 0 <= k < |j.tableIDs| ==>
               j.tableIDs[k] in env && env[j.tableIDs[k]] in RowsOf(db, j.tableIDs[k])
    requires forall k {:trigger j.fkeys[k]} :: 0 < k < |j.tableIDs| ==>
               Linked(j.fkeys[k], j.tableIDs[k - 1], j.tableIDs[k], env[j.tableIDs[k - 1]], env[j.tableIDs[k]])
    requires Filled(env[j.tableIDs[0]], key) && Tuple(env[j.tableIDs[0]], key) in records
    ensures Selects(catalog, db, records, j, env[End(j)])
  {
    var rows := seq(|j.tableIDs|, k requires 0 <= k < |j.tableIDs| => env[j.tableIDs[k]]);
    assert Chain(catalog, db, records, j, rows);
  }

  lemma SqlSelectsChain(catalog: Catalog, base: TableID, baseKey: Constraint, j: Join, key: seq<string>, db: Database,
                        records: set<seq<int>>, env: map<TableID, Row>)
    requires Setting(catalog, base, baseKey, j, key)
    requires (forall c :: c in j.fkeys ==> Paired(c)) && SqlOf(j).Sql?
    requires Satisfies(WithQuery(db, baseKey, key, records), SqlOf(j).text, env)
    ensures End(j) in env && Selects(catalog, db, records, j, env[End(j)])
  {
    SqlSteps(catalog, base, baseKey, j, key, db, records, env);
    SqlRow(catalog, base, baseKey, j, key, db, records, env, 0);
    ClauseOfBase(catalog, base, baseKey, j, key, db, records, env);
    EnvIsChain(catalog, db, records, j, key, env);
  }

  lemma EnvLookup(j: Join, rows: seq<Row>, query: TableID, first: Row, k: nat)
    requires |rows| == |j.tableIDs| && Distinct(j.tableIDs) && query !in j.tableIDs && k < |rows|
    ensures query in EnvOf(j, rows, query, first) && EnvOf(j, rows, query, first)[query] == first
    ensures j.tableIDs[k] in EnvOf(j, rows, query, first) && EnvOf(j, rows, query, first)[j.tableIDs[k]] == rows[k]
  {
    assert j.tableIDs[k] in j.tableIDs;
    RowForAt(j.tableIDs, rows, k);
  }

  /** The record of the first row satisfies the clause of the base key. */
  lemma BaseClauseHolds(catalog: Catalog, base: TableID, baseKey: Constraint, j: Join, key: seq<string>, db: Database,
                        records: set<seq<int>>, row: Row, env: map<TableID, Row>)
    requires Setting(catalog, base, baseKey, j, key) && Filled(row, key) && Tuple(row, key) in records
    requires base in env && env[base] == row && baseKey.table in env
    requires env[baseKey.table] == RecordRow(key, Tuple(row, key))
    ensures Joined(WithQuery(db, baseKey, key, records), Hop(baseKey, base), env)
  {
    var first := env[baseKey.table];
    assert baseKey.table != j.tableIDs[0];
    assert first in QueryRows(key, records);
    forall m | 0 <= m < |key| ensures key[m] in first && first[key[m]] == row[key[m]] {
      ValueForAt(key, Tuple(row, key), m);
    }
    JoinedIsMatch(WithQuery(db, baseKey, key, records), baseKey, base, env);
  }

  lemma ChainClauses(catalog: Catalog, base: TableID, baseKey: Constraint, j: Join, key: seq<string>, db: Database,
                     records: set<seq<int>>, rows: seq<Row>, env: map<TableID, Row>)
    requires Setting(catalog, base, baseKey, j, key) && Chain(catalog, db, records, j, rows)
    requires forall c :: c in j.fkeys ==> Paired(c)
    requires forall k {:trigger j.tableIDs[k]} :: 0 <= k < |j.tableIDs| ==>
        j.tableIDs[k] in env && env[j.tableIDs[k]] == rows[k]
    requires baseKey.table in env
    requires env[baseKey.table] == RecordRow(key, Tuple(rows[0], key))
    ensures forall k {:trigger j.fkeys[k]} :: 0 <= k < |j.tableIDs| ==>
              Joined(WithQuery(db, baseKey, key, records), Hop(j.fkeys[k], j.tableIDs[k]), env)
  {
    var with := WithQuery(db, baseKey, key, records);
    forall k | 0 <= k < |j.tableIDs| ensures Joined(with, Hop(j.fkeys[k], j.tableIDs[k]), env) {
      if k > 0 {
        assert j.tableIDs[k - 1] in j.tableIDs && rows[k - 1] in RowsOf(db, j.tableIDs[k - 1]);
        ClauseOfStep(catalog, base, baseKey, j, key, with, env, k);
      } else {
        BaseClauseHolds(catalog, base, baseKey, j, key, db, records, rows[0], env);
      }
    }
  }

  lemma ChainSqlSelects(catalog: Catalog, base: TableID, baseKey: Constraint, j: Join, key: seq<string>, db: Database,
                        records: set<seq<int>>, rows: seq<Row>)
    requires Setting(catalog, base, baseKey, j, key)
    requires (forall c :: c in j.fkeys ==> Paired(c)) && SqlOf(j).Sql?
    requires Chain(catalog, db, records, j, rows)
    ensures SqlSelects(WithQuery(db, baseKey, key, records), SqlOf(j).text, rows[|rows| - 1])
  {
    var n := |j.tableIDs|;
    var with := WithQuery(db, baseKey, key, records);
    ChainIsNotBroken(catalog, base, baseKey, j);
    var sql := SqlOf(j).text;
    var first := RecordRow(key, Tuple(rows[0], key));
    var env := EnvOf(j, rows, baseKey.table, first);
    forall k | 0 <= k < n ensures j.tableIDs[k] in env && env[j.tableIDs[k]] == rows[k] {
      EnvLookup(j, rows, baseKey.table, first, k);
    }
    EnvLookup(j, rows, baseKey.table, first, 0);
    ChainClauses(catalog, base, baseKey, j, key, db, records, rows, env);
    forall i | 0 <= i < n ensures Joined(with, sql.joins[i], env) {
      assert Joined(with, Hop(j.fkeys[n - 1 - i], j.tableIDs[n - 1 - i]), env);
    }
    assert End(j) in j.tableIDs;
    assert Satisfies(with, sql, env);
  }

  /** Run against the database and the results of the subset query, the SQL of a stored
      chain selects exactly the rows the chain selects. */
  lemma SqlMeansChain(catalog: Catalog, base: TableID, baseKey: Constraint, j: Join, key: seq<string>, db: Database,
                      records: set<seq<int>>, row: Row)
    requires Setting(catalog, base, baseKey, j, key)
    ensures (forall c :: c in j.fkeys ==> Paired(c)) && SqlOf(j).Sql?
    ensures SqlSelects(WithQuery(db, baseKey, key, records), SqlOf(j).text, row) <==>
            Selects(catalog, db, records, j, row)
  {
    ChainIsNotBroken(catalog, base, baseKey, j);
    var with, sql := WithQuery(db, baseKey, key, records), SqlOf(j).text;
    if SqlSelects(with, sql, row) {
      var env :| Satisfies(with, sql, env) && env[sql.first] == row;
      SqlSelectsChain(catalog, base, baseKey, j, key, db, records, env);
    }
    if Selects(catalog, db, records, j, row) {
      var rows :| Chain(catalog, db, records, j, rows) && rows[|rows| - 1] == row;
      ChainSqlSelects(catalog, base, baseKey, j, key, db, records, rows);
    }
  }
}
