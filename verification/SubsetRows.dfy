/** What a chain of joins selects, and when the rows selected for all tables together
    are referentially intact. */
module SubsetRows {
  import opened Common
  import opened ForeignKeys
  import opened JoinSearch
  import opened SearchCompleteness

  /** The columns of a row that are not NULL. */
  type Row = map<string, int>

  type Database = map<TableID, set<Row>>

  /** The primary key the catalog cache finds: the last one of the table. */
  function PrimaryKeyIn(constraints: seq<Constraint>): Option<seq<string>> {
    if constraints == [] then None
    else if constraints[|constraints| - 1].constraintType == PrimaryKey
        then Some(constraints[|constraints| - 1].columns)
    else PrimaryKeyIn(constraints[..|constraints| - 1])
  }

  function PrimaryKeyOf(catalog: Catalog, id: TableID): Option<seq<string>> {
    PrimaryKeyIn(ConstraintsOf(catalog, id))
  }

  ghost predicate NoPrimary(cs: seq<Constraint>) {
    forall i :: 0 <= i < |cs| ==> cs[i].constraintType != PrimaryKey
  }

  /** A primary key after which no other comes. */
  ghost predicate PrimaryAt(cs: seq<Constraint>, i: int) {
    0 <= i < |cs| && cs[i].constraintType == PrimaryKey
    && forall k :: i < k < |cs| ==> cs[k].constraintType != PrimaryKey
  }

  ghost predicate LastPrimary(cs: seq<Constraint>, key: seq<string>) {
    exists i :: PrimaryAt(cs, i) && cs[i].columns == key
  }

  lemma {:induction false} PrimaryKeyExactly(cs: seq<Constraint>, key: seq<string>)
    ensures PrimaryKeyIn(cs) == None <==> NoPrimary(cs)
    ensures PrimaryKeyIn(cs) == Some(key) <==> LastPrimary(cs, key)
  {
    if cs == [] {
    } else {
      var init, n := cs[..|cs| - 1], |cs| - 1;
      PrimaryKeyExactly(init, key);
      if cs[n].constraintType == PrimaryKey {
        assert PrimaryAt(cs, n);
        assert forall i :: PrimaryAt(cs, i) ==> i == n;
      } else {
        assert forall i :: 0 <= i < n ==> init[i] == cs[i];
        forall i ensures PrimaryAt(cs, i) <==> PrimaryAt(init, i) {
          PrimaryBefore(cs, i);
        }
        assert NoPrimary(cs) <==> NoPrimary(init) by {
          if NoPrimary(cs) {
            assert forall i :: 0 <= i < n ==> cs[i].constraintType != PrimaryKey;
          }
        }
      }
    }
  }

  lemma PrimaryBefore(cs: seq<Constraint>, i: int)
    requires cs != [] && cs[|cs| - 1].constraintType != PrimaryKey
    ensures PrimaryAt(cs, i) <==> PrimaryAt(cs[..|cs| - 1], i)
  {
    var init := cs[..|cs| - 1];
    if PrimaryAt(cs, i) {
      forall k | i < k < |init| ensures init[k].constraintType != PrimaryKey {
        assert cs[k].constraintType != PrimaryKey;
      }
    }
  }

  /** Table i has the name, and none after it has. */
  ghost predicate LastTable(catalog: Catalog, i: int, id: TableID) {
    0 <= i < |catalog| && catalog[i].id == id && forall k :: i < k < |catalog| ==> catalog[k].id != id
  }

  /** The constraints of a table, from where it is in the catalog. */
  lemma {:induction false} ConstraintsAtTable(catalog: Catalog, id: TableID) returns (i: int)
    ensures HasTable(catalog, id) <==> i >= 0
    ensures i < 0 ==> forall k :: 0 <= k < |catalog| ==> catalog[k].id != id
    ensures i >= 0 ==> LastTable(catalog, i, id) && ConstraintsOf(catalog, id) == catalog[i].constraints
  {
    if catalog == [] {
      return -1;
    }
    var init, n := catalog[..|catalog| - 1], |catalog| - 1;
    assert catalog == init + [catalog[n]];
    if catalog[n].id == id {
      return n;
    }
    i := ConstraintsAtTable(init, id);
    forall k | 0 <= k < |catalog| && (i < 0 || i < k) ensures catalog[k].id != id {
      assert k < n ==> catalog[k] == init[k];
    }
  }

  predicate HasKey(catalog: Catalog, id: TableID) {
    PrimaryKeyOf(catalog, id).Some?
  }

  /** The table is there, and no constraint of it is a primary key. */
  ghost predicate Keyless(catalog: Catalog, id: TableID) {
    exists i :: LastTable(catalog, i, id) && NoPrimary(catalog[i].constraints)
  }

  /** The table is there, and its last primary key has the columns. */
  ghost predicate KeyedBy(catalog: Catalog, id: TableID, key: seq<string>) {
    exists i :: LastTable(catalog, i, id) && LastPrimary(catalog[i].constraints, key)
  }

  lemma SameLastTable(catalog: Catalog, i: int, k: int, id: TableID)
    requires LastTable(catalog, i, id) && LastTable(catalog, k, id)
    ensures i == k
  {
  }

  /** What is found of a table's primary key. */
  lemma KeyExactly(catalog: Catalog, id: TableID, key: seq<string>)
    ensures HasTable(catalog, id) && !HasKey(catalog, id) <==> Keyless(catalog, id)
    ensures PrimaryKeyOf(catalog, id) == Some(key) <==> KeyedBy(catalog, id, key)
  {
    var i := ConstraintsAtTable(catalog, id);
    if i >= 0 {
      PrimaryKeyExactly(catalog[i].constraints, key);
      forall k | LastTable(catalog, k, id) ensures k == i {
        SameLastTable(catalog, i, k, id);
      }
    } else {
      NothingThere(catalog, id);
    }
  }

  lemma {:induction false} NothingThere(catalog: Catalog, id: TableID)
    requires !HasTable(catalog, id)
    ensures ConstraintsOf(catalog, id) == [] && !exists i :: LastTable(catalog, i, id)
  {
    if catalog == [] {
    } else {
      var init := catalog[..|catalog| - 1];
      assert catalog == init + [catalog[|catalog| - 1]];
      NothingThere(init, id);
      forall i ensures !LastTable(catalog, i, id) {
        assert 0 <= i < |catalog| ==> catalog[i] in catalog;
      }
    }
  }

  predicate Filled(row: Row, columns: seq<string>) {
    forall i {:trigger columns[i]} :: 0 <= i < |columns| ==> columns[i] in row
  }

  function Tuple(row: Row, columns: seq<string>): seq<int>
    requires Filled(row, columns)
  {
    seq(|columns|, i requires 0 <= i < |columns| => row[columns[i]])
  }

  /** The join condition of c between a row of its table and one of the table it
      references; a NULL on either side fails it. */
  predicate Match(c: Constraint, child: Row, parent: Row) {
    |c.columns| == |c.referencesColumns|
    && forall i {:trigger c.columns[i]} :: 0 <= i < |c.columns| ==>
         && c.columns[i] in child && c.referencesColumns[i] in parent
         && child[c.columns[i]] == parent[c.referencesColumns[i]]
  }

  function RowsOf(db: Database, id: TableID): set<Row> {
    if id in db then db[id] else {}
  }

  /** Primary keys are filled and unique, and each filled foreign key has its one parent row. */
  ghost predicate ValidDatabase(catalog: Catalog, db: Database) {
    && (forall id, row {:trigger row in RowsOf(db, id), PrimaryKeyOf(catalog, id)} ::
          row in RowsOf(db, id) && HasKey(catalog, id) ==> Filled(row, PrimaryKeyOf(catalog, id).value))
    && (forall id, r, s {:trigger r in RowsOf(db, id), s in RowsOf(db, id)} ::
          r in RowsOf(db, id) && s in RowsOf(db, id) && HasKey(catalog, id)
          && Tuple(r, PrimaryKeyOf(catalog, id).value) == Tuple(s, PrimaryKeyOf(catalog, id).value)
          ==> r == s)
    && (forall c, row {:trigger Filled(row, c.columns)} ::
          IsForeignKey(catalog, c) && row in RowsOf(db, c.table) && Filled(row, c.columns) ==>
          exists parent :: parent in RowsOf(db, c.references) && Match(c, row, parent))
    && (forall c, row, p, q {:trigger Match(c, row, p), Match(c, row, q)} ::
          IsForeignKey(catalog, c) && row in RowsOf(db, c.table) && p in RowsOf(db, c.references)
          && q in RowsOf(db, c.references) && Match(c, row, p) && Match(c, row, q)
          ==> p == q)
  }

  /** Rows of two neighbouring tables of a chain match along its key, whichever way it points. */
  predicate Linked(c: Constraint, a: TableID, b: TableID, r: Row, s: Row) {
    || (c.table == a && c.references == b && Match(c, r, s))
    || (c.table == b && c.references == a && Match(c, s, r))
  }

  /** One row for each table of the chain, the first one returned by the subset query
      (whose primary keys are `records`), each one joined to the one before. */
  ghost predicate Chain(catalog: Catalog, db: Database, records: set<seq<int>>, j: Join, rows: seq<Row>) {
    && 0 < |rows| == |j.tableIDs| == |j.fkeys|
    && (forall k {:trigger rows[k]} :: 0 <= k < |rows| ==> rows[k] in RowsOf(db, j.tableIDs[k]))
    && HasKey(catalog, j.tableIDs[0])
    && var key := PrimaryKeyOf(catalog, j.tableIDs[0]).value;
    && Filled(rows[0], key) && Tuple(rows[0], key) in records
    && (forall k {:trigger j.fkeys[k]} :: 0 < k < |rows| ==>
          Linked(j.fkeys[k], j.tableIDs[k - 1], j.tableIDs[k], rows[k - 1], rows[k]))
  }

  /** The join selects the row. */
  ghost predicate Selects(catalog: Catalog, db: Database, records: set<seq<int>>, j: Join, row: Row) {
    exists rows :: Chain(catalog, db, records, j, rows) && rows[|rows| - 1] == row
  }

  /** The row is in the dump of the table: the table has a primary key, and a chain
      selects a row with the same one. */
  ghost predicate Dumped(catalog: Catalog, db: Database, records: set<seq<int>>, joins: Joins, id: TableID, row: Row) {
    && row in RowsOf(db, id) && HasKey(catalog, id)
    && var key := PrimaryKeyOf(catalog, id).value;
    && Filled(row, key)
    && exists j, s :: j in JoinsOf(joins, id) && s in RowsOf(db, id) && Selects(catalog, db, records, j, s)
                      && Filled(s, key) && Tuple(s, key) == Tuple(row, key)
  }

  /** Every filled foreign key of a dumped row has its parent row dumped. */
  ghost predicate Intact(catalog: Catalog, db: Database, records: set<seq<int>>, joins: Joins) {
    forall c, row {:trigger Dumped(catalog, db, records, joins, c.table, row)} ::
      IsForeignKey(catalog, c) && Dumped(catalog, db, records, joins, c.table, row) && Filled(row, c.columns) ==>
      ParentDumped(catalog, db, records, joins, c, row)
  }

  ghost predicate ParentDumped(catalog: Catalog, db: Database, records: set<seq<int>>, joins: Joins, c: Constraint,
                               row: Row) {
    exists parent :: Dumped(catalog, db, records, joins, c.references, parent) && Match(c, row, parent)
  }

  lemma SelectedIsDumped(catalog: Catalog, db: Database, records: set<seq<int>>, joins: Joins, j: Join, id: TableID,
                         row: Row)
    requires ValidDatabase(catalog, db) && HasKey(catalog, id)
    requires j in JoinsOf(joins, id) && j.tableIDs != [] && End(j) == id && Selects(catalog, db, records, j, row)
    ensures Dumped(catalog, db, records, joins, id, row)
  {
    var rows :| Chain(catalog, db, records, j, rows) && rows[|rows| - 1] == row;
    assert row in RowsOf(db, id);
  }

  lemma DumpedIsSelected(catalog: Catalog, db: Database, records: set<seq<int>>, joins: Joins, id: TableID, row: Row)
      returns (j: Join)
    requires ValidDatabase(catalog, db)
    requires Dumped(catalog, db, records, joins, id, row)
    ensures j in JoinsOf(joins, id) && Selects(catalog, db, records, j, row)
  {
    var s;
    var key := PrimaryKeyOf(catalog, id).value;
    j, s :| j in JoinsOf(joins, id) && s in RowsOf(db, id) && Selects(catalog, db, records, j, s)
            && Filled(s, key) && Tuple(s, key) == Tuple(row, key);
    assert s == row;
  }

  // ----- complete searches give intact dumps -----

  lemma ChainPrefix(catalog: Catalog, db: Database, records: set<seq<int>>, j: Join, rows: seq<Row>)
    requires Chain(catalog, db, records, j, rows) && |rows| > 1
    ensures Chain(catalog, db, records, Prefix(j), rows[..|rows| - 1])
  {
    assert forall k :: 0 < k < |rows| - 1 ==> Prefix(j).fkeys[k] == j.fkeys[k];
  }

  lemma ChainSnoc(catalog: Catalog, db: Database, records: set<seq<int>>, j: Join, rows: seq<Row>, c: Constraint,
                  parent: Row)
    requires Chain(catalog, db, records, j, rows)
    requires c.table == End(j) && parent in RowsOf(db, c.references) && Match(c, rows[|rows| - 1], parent)
    ensures Chain(catalog, db, records, Snoc(j, c, c.references), rows + [parent])
  {
    var x, more := Snoc(j, c, c.references), rows + [parent];
    forall k | 0 < k < |more|
      ensures Linked(x.fkeys[k], x.tableIDs[k - 1], x.tableIDs[k], more[k - 1], more[k])
    {
      if k < |rows| {
        assert x.fkeys[k] == j.fkeys[k];
      }
    }
  }

  /** A chain that came to its last table along c has met the parent row on the way. */
  lemma ParentOnTheWay(catalog: Catalog, base: TableID, baseKey: Constraint, db: Database, records: set<seq<int>>,
                       j: Join, rows: seq<Row>, c: Constraint)
    requires SimplePath(catalog, base, baseKey, j) && CameAlong(j, c) && c.table == End(j)
    requires Chain(catalog, db, records, j, rows)
    ensures |rows| > 1 && End(Prefix(j)) == c.references
    ensures Match(c, rows[|rows| - 1], rows[|rows| - 2])
    ensures Selects(catalog, db, records, Prefix(j), rows[|rows| - 2])
  {
    ChainPrefix(catalog, db, records, j, rows);
    assert j.fkeys[|rows| - 1] == c;
    assert Differ(j.tableIDs, |rows| - 2, |rows| - 1);
    assert rows[..|rows| - 1][|rows| - 2] == rows[|rows| - 2];
  }

  /** A chain continued along c selects the parent row the database holds. */
  lemma ParentByKey(catalog: Catalog, db: Database, records: set<seq<int>>, j: Join, c: Constraint, row: Row)
    returns (parent: Row)
    requires ValidDatabase(catalog, db) && IsForeignKey(catalog, c) && j.tableIDs != [] && c.table == End(j)
    requires Selects(catalog, db, records, j, row) && Filled(row, c.columns)
    ensures Match(c, row, parent) && Selects(catalog, db, records, Snoc(j, c, c.references), parent)
  {
    var rows :| Chain(catalog, db, records, j, rows) && rows[|rows| - 1] == row;
    assert row in RowsOf(db, c.table);
    parent :| parent in RowsOf(db, c.references) && Match(c, row, parent);
    ChainSnoc(catalog, db, records, j, rows, c, parent);
    assert (rows + [parent])[|rows + [parent]| - 1] == parent;
  }

  lemma ParentIsDumped(catalog: Catalog, base: TableID, baseKey: Constraint, db: Database, records: set<seq<int>>,
                       joins: Joins, j: Join, c: Constraint, row: Row)
    requires GoodJoins(catalog, base, baseKey, joins) && Stored(joins, j) && c.table == End(j)
    requires CameAlong(j, c) || Continued(joins, j, c)
    requires forall id :: id in joins ==> HasKey(catalog, id)
    requires ValidDatabase(catalog, db)
    requires IsForeignKey(catalog, c) && Selects(catalog, db, records, j, row) && Filled(row, c.columns)
    ensures ParentDumped(catalog, db, records, joins, c, row)
  {
    if CameAlong(j, c) {
      var rows :| Chain(catalog, db, records, j, rows) && rows[|rows| - 1] == row;
      assert SimplePath(catalog, base, baseKey, j);
      ParentOnTheWay(catalog, base, baseKey, db, records, j, rows, c);
      assert PrefixStored(joins, j);
      SelectedIsDumped(catalog, db, records, joins, Prefix(j), c.references, rows[|rows| - 2]);
    } else {
      var parent := ParentByKey(catalog, db, records, j, c, row);
      SelectedIsDumped(catalog, db, records, joins, Snoc(j, c, c.references), c.references, parent);
    }
  }

  lemma CompleteIsIntact(catalog: Catalog, base: TableID, baseKey: Constraint, db: Database, records: set<seq<int>>,
                         joins: Joins)
    requires GoodJoins(catalog, base, baseKey, joins) && Complete(catalog, joins)
    requires forall id :: id in joins ==> HasKey(catalog, id)
    requires ValidDatabase(catalog, db)
    ensures Intact(catalog, db, records, joins)
  {
    forall c, row | IsForeignKey(catalog, c) && Dumped(catalog, db, records, joins, c.table, row)
        && Filled(row, c.columns)
      ensures ParentDumped(catalog, db, records, joins, c, row)
    {
      var j := DumpedIsSelected(catalog, db, records, joins, c.table, row);
      assert SimplePath(catalog, base, baseKey, j) && End(j) == c.table by { assert j in joins[c.table]; }
      assert CameAlong(j, c) || Continued(joins, j, c);
      ParentIsDumped(catalog, base, baseKey, db, records, joins, j, c, row);
    }
  }
}
