/** The converse of SubsetRows: a search that misses a chain has a database on which the
    dump is not intact. The database is a single chain of rows that ends in the step
    the search did not take. */
module SubsetWitness {
  import opened Common
  import opened ForeignKeys
  import opened JoinSearch
  import opened SearchCompleteness
  import opened SubsetRows

  /** The columns of a table that identify its rows: the primary key and whatever
      foreign keys reference. */
  function KeyColumns(catalog: Catalog, id: TableID): set<string> {
    (set c, i | c in ReferencedBy(catalog, id) && 0 <= i < |c.referencesColumns| :: c.referencesColumns[i])
    + (if HasKey(catalog, id) then set column | column in PrimaryKeyOf(catalog, id).value else {})
  }

  /** Foreign keys and primary keys have columns, and no column of a foreign key belongs
      to another foreign key or identifies the row: each can be NULL on its own. */
  ghost predicate Independent(catalog: Catalog) {
    && (forall c {:trigger IsForeignKey(catalog, c)} :: IsForeignKey(catalog, c) ==>
          c.columns != [] && forall column :: column in c.columns ==> column !in KeyColumns(catalog, c.table))
    && (forall id {:trigger PrimaryKeyOf(catalog, id)} :: HasKey(catalog, id) ==> PrimaryKeyOf(catalog, id).value != [])
    && (forall c, d, column {:trigger column in c.columns, column in d.columns} ::
          IsForeignKey(catalog, c) && IsForeignKey(catalog, d) && c.table == d.table
          && column in c.columns && column in d.columns
          ==> c == d)
  }

  // ----- the rows -----

  /** The rows 0, 1, ... stand in the tables of the chain j, and one more in the table d references. */
  function Node(j: Join, d: Constraint, k: nat): TableID
    requires k <= |j.tableIDs|
  {
    if k < |j.tableIDs| then j.tableIDs[k] else d.references
  }

  /** The row that row k references by c, or -1 if its columns of c are NULL. */
  function Target(j: Join, d: Constraint, k: nat, c: Constraint): (m: int)
    requires k <= |j.tableIDs| == |j.fkeys|
    ensures -1 <= m <= |j.tableIDs|
  {
    if 0 < k < |j.tableIDs| && c == j.fkeys[k] && c.table == j.tableIDs[k] then k - 1
    else if k + 1 < |j.tableIDs| && c == j.fkeys[k + 1] && c.table == j.tableIDs[k] then k + 1
    else if k + 1 == |j.tableIDs| && c == d then |j.tableIDs|
    else -1
  }

  function LiveColumns(catalog: Catalog, j: Join, d: Constraint, k: nat): set<string>
    requires k <= |j.tableIDs| == |j.fkeys|
  {
    set c, i | c in ConstraintsOf(catalog, Node(j, d, k)) && c.constraintType == ForeignKey
               && Target(j, d, k, c) >= 0 && 0 <= i < |c.columns| :: c.columns[i]
  }

  ghost function ValueAt(catalog: Catalog, j: Join, d: Constraint, k: nat, column: string): int
    requires k <= |j.tableIDs| == |j.fkeys|
    requires column in LiveColumns(catalog, j, d, k) || column in KeyColumns(catalog, Node(j, d, k))
  {
    if column in KeyColumns(catalog, Node(j, d, k)) then k
    else
      var c :| c in ConstraintsOf(catalog, Node(j, d, k)) && c.constraintType == ForeignKey
               && Target(j, d, k, c) >= 0 && column in c.columns;
      Target(j, d, k, c)
  }

  ghost function RowAt(catalog: Catalog, j: Join, d: Constraint, k: nat): Row
    requires k <= |j.tableIDs| == |j.fkeys|
  {
    map column | column in LiveColumns(catalog, j, d, k) + KeyColumns(catalog, Node(j, d, k)) ::
      ValueAt(catalog, j, d, k, column)
  }

  function Nodes(j: Join, d: Constraint): set<TableID> {
    set k | 0 <= k <= |j.tableIDs| :: Node(j, d, k)
  }

  ghost function Witness(catalog: Catalog, j: Join, d: Constraint): Database
    requires |j.tableIDs| == |j.fkeys|
  {
    map id | id in Nodes(j, d) ::
      set k | 0 <= k <= |j.tableIDs| && Node(j, d, k) == id :: RowAt(catalog, j, d, k)
  }

  lemma WitnessRow(catalog: Catalog, j: Join, d: Constraint, id: TableID, row: Row)
    requires |j.tableIDs| == |j.fkeys|
    ensures row in RowsOf(Witness(catalog, j, d), id) <==>
            exists k :: 0 <= k <= |j.tableIDs| && Node(j, d, k) == id && row == RowAt(catalog, j, d, k)
  {
  }

  /** The setting of the construction: a stored chain and a key out of its last table. */
  ghost predicate Missed(catalog: Catalog, base: TableID, baseKey: Constraint, j: Join, d: Constraint) {
    && Closed(catalog) && Independent(catalog)
    && SimplePath(catalog, base, baseKey, j)
    && IsForeignKey(catalog, d) && d.table == End(j) && !CameAlong(j, d)
  }

  lemma KeyColumnsMember(catalog: Catalog, c: Constraint, i: nat)
    requires Closed(catalog) && IsForeignKey(catalog, c) && i < |c.referencesColumns|
    ensures c.referencesColumns[i] in KeyColumns(catalog, c.references)
    ensures |c.columns| == |c.referencesColumns|
  {
    ConstraintsOfMember(catalog, c.table, c);
    ReferencedByMember(catalog, c.references, c);
  }

  /** The columns of a foreign key c of row k hold the number of the row referenced, or nothing. */
  lemma ForeignColumn(catalog: Catalog, base: TableID, baseKey: Constraint, j: Join, d: Constraint, k: nat,
                      c: Constraint, column: string)
    requires Missed(catalog, base, baseKey, j, d) && k <= |j.tableIDs|
    requires IsForeignKey(catalog, c) && c.table == Node(j, d, k) && column in c.columns
    ensures column in RowAt(catalog, j, d, k) <==> Target(j, d, k, c) >= 0
    ensures column in RowAt(catalog, j, d, k) ==> RowAt(catalog, j, d, k)[column] == Target(j, d, k, c)
  {
    var id := Node(j, d, k);
    assert column !in KeyColumns(catalog, id);
    forall e | e in ConstraintsOf(catalog, id) && e.constraintType == ForeignKey && column in e.columns ensures e == c {
      OutgoingMember(catalog, Parentward, id, e);
    }
    if Target(j, d, k, c) >= 0 {
      var i :| 0 <= i < |c.columns| && c.columns[i] == column;
      assert column in LiveColumns(catalog, j, d, k);
    }
  }

  lemma MatchIsTarget(catalog: Catalog, base: TableID, baseKey: Constraint, j: Join, d: Constraint, k: nat, m: nat,
                      c: Constraint)
    requires Missed(catalog, base, baseKey, j, d) && k <= |j.tableIDs| && m <= |j.tableIDs|
    requires IsForeignKey(catalog, c) && c.table == Node(j, d, k) && c.references == Node(j, d, m)
    ensures Match(c, RowAt(catalog, j, d, k), RowAt(catalog, j, d, m)) <==> Target(j, d, k, c) == m
  {
    var child, parent := RowAt(catalog, j, d, k), RowAt(catalog, j, d, m);
    assert |c.columns| == |c.referencesColumns| by { ConstraintsOfMember(catalog, c.table, c); }
    forall i | 0 <= i < |c.columns|
      ensures c.columns[i] in child <==> Target(j, d, k, c) >= 0
      ensures c.columns[i] in child ==> child[c.columns[i]] == Target(j, d, k, c)
      ensures c.referencesColumns[i] in parent && parent[c.referencesColumns[i]] == m
    {
      ForeignColumn(catalog, base, baseKey, j, d, k, c, c.columns[i]);
      KeyColumnsMember(catalog, c, i);
    }
    assert c.columns[0] in c.columns;
  }

  lemma FilledIsTarget(catalog: Catalog, base: TableID, baseKey: Constraint, j: Join, d: Constraint, k: nat,
                       c: Constraint)
    requires Missed(catalog, base, baseKey, j, d) && k <= |j.tableIDs|
    requires IsForeignKey(catalog, c) && c.table == Node(j, d, k)
    ensures Filled(RowAt(catalog, j, d, k), c.columns) <==> Target(j, d, k, c) >= 0
  {
    forall i | 0 <= i < |c.columns| ensures c.columns[i] in RowAt(catalog, j, d, k) <==> Target(j, d, k, c) >= 0 {
      ForeignColumn(catalog, base, baseKey, j, d, k, c, c.columns[i]);
    }
    assert c.columns[0] in c.columns;
  }

  /** The row referenced stands in the table referenced. */
  lemma TargetNode(catalog: Catalog, base: TableID, baseKey: Constraint, j: Join, d: Constraint, k: nat, c: Constraint)
    requires Missed(catalog, base, baseKey, j, d) && k <= |j.tableIDs|
    requires c.table == Node(j, d, k) && Target(j, d, k, c) >= 0
    ensures Node(j, d, Target(j, d, k, c)) == c.references
  {
    if 0 < k < |j.tableIDs| && c == j.fkeys[k] && c.table == j.tableIDs[k] {
      assert Links(j.fkeys[k], j.tableIDs[k - 1], j.tableIDs[k]);
    } else if k + 1 < |j.tableIDs| && c == j.fkeys[k + 1] && c.table == j.tableIDs[k] {
      assert Links(j.fkeys[k + 1], j.tableIDs[k], j.tableIDs[k + 1]);
    }
  }

  lemma KeyTuple(catalog: Catalog, j: Join, d: Constraint, k: nat, i: nat)
    requires k <= |j.tableIDs| == |j.fkeys| && HasKey(catalog, Node(j, d, k))
    requires i < |PrimaryKeyOf(catalog, Node(j, d, k)).value|
    ensures var column := PrimaryKeyOf(catalog, Node(j, d, k)).value[i];
            column in RowAt(catalog, j, d, k) && RowAt(catalog, j, d, k)[column] == k
  {
    assert PrimaryKeyOf(catalog, Node(j, d, k)).value[i] in KeyColumns(catalog, Node(j, d, k));
  }

  lemma WitnessKeys(catalog: Catalog, base: TableID, baseKey: Constraint, j: Join, d: Constraint, k: nat)
    requires Missed(catalog, base, baseKey, j, d) && k <= |j.tableIDs| && HasKey(catalog, Node(j, d, k))
    ensures var key := PrimaryKeyOf(catalog, Node(j, d, k)).value;
            && key != [] && Filled(RowAt(catalog, j, d, k), key)
            && Tuple(RowAt(catalog, j, d, k), key)[0] == k
  {
    forall i | 0 <= i < |PrimaryKeyOf(catalog, Node(j, d, k)).value| {
      KeyTuple(catalog, j, d, k, i);
    }
  }

  lemma WitnessIsValid(catalog: Catalog, base: TableID, baseKey: Constraint, j: Join, d: Constraint)
    requires Missed(catalog, base, baseKey, j, d)
    ensures ValidDatabase(catalog, Witness(catalog, j, d))
  {
    var db := Witness(catalog, j, d);
    forall id, row | row in RowsOf(db, id) && HasKey(catalog, id)
      ensures Filled(row, PrimaryKeyOf(catalog, id).value)
    {
      WitnessRow(catalog, j, d, id, row);
      var k :| 0 <= k <= |j.tableIDs| && Node(j, d, k) == id && row == RowAt(catalog, j, d, k);
      WitnessKeys(catalog, base, baseKey, j, d, k);
    }
    forall id, r, s | r in RowsOf(db, id) && s in RowsOf(db, id) && HasKey(catalog, id)
                      && Tuple(r, PrimaryKeyOf(catalog, id).value) == Tuple(s, PrimaryKeyOf(catalog, id).value)
      ensures r == s
    {
      WitnessRow(catalog, j, d, id, r);
      WitnessRow(catalog, j, d, id, s);
      var k :| 0 <= k <= |j.tableIDs| && Node(j, d, k) == id && r == RowAt(catalog, j, d, k);
      var m :| 0 <= m <= |j.tableIDs| && Node(j, d, m) == id && s == RowAt(catalog, j, d, m);
      WitnessKeys(catalog, base, baseKey, j, d, k);
      WitnessKeys(catalog, base, baseKey, j, d, m);
    }
    forall c, row | IsForeignKey(catalog, c) && row in RowsOf(db, c.table) && Filled(row, c.columns)
      ensures exists parent :: parent in RowsOf(db, c.references) && Match(c, row, parent)
    {
      WitnessRow(catalog, j, d, c.table, row);
      var k :| 0 <= k <= |j.tableIDs| && Node(j, d, k) == c.table && row == RowAt(catalog, j, d, k);
      FilledIsTarget(catalog, base, baseKey, j, d, k, c);
      TargetNode(catalog, base, baseKey, j, d, k, c);
      var m := Target(j, d, k, c);
      WitnessRow(catalog, j, d, c.references, RowAt(catalog, j, d, m));
      MatchIsTarget(catalog, base, baseKey, j, d, k, m, c);
    }
    forall c, row, p, q | IsForeignKey(catalog, c) && row in RowsOf(db, c.table) && p in RowsOf(db, c.references)
                          && q in RowsOf(db, c.references) && Match(c, row, p) && Match(c, row, q)
      ensures p == q
    {
      WitnessRow(catalog, j, d, c.table, row);
      WitnessRow(catalog, j, d, c.references, p);
      WitnessRow(catalog, j, d, c.references, q);
      var k :| 0 <= k <= |j.tableIDs| && Node(j, d, k) == c.table && row == RowAt(catalog, j, d, k);
      var m :| 0 <= m <= |j.tableIDs| && Node(j, d, m) == c.references && p == RowAt(catalog, j, d, m);
      var n :| 0 <= n <= |j.tableIDs| && Node(j, d, n) == c.references && q == RowAt(catalog, j, d, n);
      MatchIsTarget(catalog, base, baseKey, j, d, k, m, c);
      MatchIsTarget(catalog, base, baseKey, j, d, k, n, c);
    }
  }

  // ----- what the chains select there -----

  /** The subset query returns row 0 only. */
  ghost function FirstRecord(catalog: Catalog, j: Join, d: Constraint): set<seq<int>>
    requires 0 < |j.tableIDs| == |j.fkeys| && HasKey(catalog, j.tableIDs[0])
  {
    var key := PrimaryKeyOf(catalog, j.tableIDs[0]).value;
    if Filled(RowAt(catalog, j, d, 0), key) then {Tuple(RowAt(catalog, j, d, 0), key)} else {}
  }

  /** The chain j itself selects its last row. */
  lemma WitnessSelected(catalog: Catalog, base: TableID, baseKey: Constraint, j: Join, d: Constraint)
    requires Missed(catalog, base, baseKey, j, d) && HasKey(catalog, base)
    ensures Selects(catalog, Witness(catalog, j, d), FirstRecord(catalog, j, d), j,
                    RowAt(catalog, j, d, |j.tableIDs| - 1))
  {
    var rows := seq(|j.tableIDs|, k requires 0 <= k < |j.tableIDs| => RowAt(catalog, j, d, k));
    WitnessChain(catalog, base, baseKey, j, d, rows);
  }

  lemma WitnessChain(catalog: Catalog, base: TableID, baseKey: Constraint, j: Join, d: Constraint, rows: seq<Row>)
    requires Missed(catalog, base, baseKey, j, d) && HasKey(catalog, base) && |rows| == |j.tableIDs|
    requires forall k {:trigger rows[k]} :: 0 <= k < |rows| ==> rows[k] == RowAt(catalog, j, d, k)
    ensures Chain(catalog, Witness(catalog, j, d), FirstRecord(catalog, j, d), j, rows)
  {
    WitnessRows(catalog, j, d, rows);
    WitnessKeys(catalog, base, baseKey, j, d, 0);
    WitnessSteps(catalog, base, baseKey, j, d, rows);
  }

  lemma WitnessRows(catalog: Catalog, j: Join, d: Constraint, rows: seq<Row>)
    requires |rows| == |j.tableIDs| == |j.fkeys|
    requires forall k :: 0 <= k < |rows| ==> rows[k] == RowAt(catalog, j, d, k)
    ensures forall k {:trigger rows[k]} :: 0 <= k < |rows| ==> rows[k] in RowsOf(Witness(catalog, j, d), j.tableIDs[k])
  {
    forall k | 0 <= k < |rows| ensures rows[k] in RowsOf(Witness(catalog, j, d), j.tableIDs[k]) {
      WitnessRow(catalog, j, d, j.tableIDs[k], rows[k]);
    }
  }

  lemma WitnessSteps(catalog: Catalog, base: TableID, baseKey: Constraint, j: Join, d: Constraint, rows: seq<Row>)
    requires Missed(catalog, base, baseKey, j, d) && |rows| == |j.tableIDs|
    requires forall k :: 0 <= k < |rows| ==> rows[k] == RowAt(catalog, j, d, k)
    ensures forall k {:trigger j.fkeys[k]} :: 0 < k < |rows| ==>
              Linked(j.fkeys[k], j.tableIDs[k - 1], j.tableIDs[k], rows[k - 1], rows[k])
  {
    forall k | 0 < k < |rows|
      ensures Linked(j.fkeys[k], j.tableIDs[k - 1], j.tableIDs[k], rows[k - 1], rows[k])
    {
      WitnessStep(catalog, base, baseKey, j, d, k);
    }
  }

  lemma WitnessStep(catalog: Catalog, base: TableID, baseKey: Constraint, j: Join, d: Constraint, k: nat)
    requires Missed(catalog, base, baseKey, j, d) && 0 < k < |j.tableIDs|
    ensures Linked(j.fkeys[k], j.tableIDs[k - 1], j.tableIDs[k], RowAt(catalog, j, d, k - 1), RowAt(catalog, j, d, k))
  {
    assert Links(j.fkeys[k], j.tableIDs[k - 1], j.tableIDs[k]);
    if j.fkeys[k].table == j.tableIDs[k] {
      MatchIsTarget(catalog, base, baseKey, j, d, k, k - 1, j.fkeys[k]);
    } else {
      ForwardTarget(catalog, base, baseKey, j, d, k - 1);
      MatchIsTarget(catalog, base, baseKey, j, d, k - 1, k, j.fkeys[k]);
    }
  }

  /** A step towards a parent is not the step the row came by. */
  lemma ForwardTarget(catalog: Catalog, base: TableID, baseKey: Constraint, j: Join, d: Constraint, k: nat)
    requires Missed(catalog, base, baseKey, j, d) && k + 1 < |j.tableIDs| && j.fkeys[k + 1].table == j.tableIDs[k]
    ensures Target(j, d, k, j.fkeys[k + 1]) == k + 1
  {
    assert Links(j.fkeys[k + 1], j.tableIDs[k], j.tableIDs[k + 1]);
    assert Differ(j.tableIDs, k, k + 1);
    if 0 < k {
      assert Links(j.fkeys[k], j.tableIDs[k - 1], j.tableIDs[k]);
      assert Differ(j.tableIDs, k - 1, k) && Differ(j.tableIDs, k - 1, k + 1);
    }
  }

  /** The key of the step from row k to row k + 1. */
  function StepKey(j: Join, d: Constraint, k: nat): Constraint
    requires k < |j.tableIDs| == |j.fkeys|
  {
    if k + 1 < |j.tableIDs| then j.fkeys[k + 1] else d
  }

  /** From row k one gets to a neighbour only, and forward only by the key of that step. */
  lemma Neighbours(catalog: Catalog, base: TableID, baseKey: Constraint, j: Join, d: Constraint, k: nat, m: nat,
                   c: Constraint, a: TableID, b: TableID)
    requires Missed(catalog, base, baseKey, j, d) && k <= |j.tableIDs| && m <= |j.tableIDs|
    requires IsForeignKey(catalog, c) && Node(j, d, k) == a && Node(j, d, m) == b
    requires Linked(c, a, b, RowAt(catalog, j, d, k), RowAt(catalog, j, d, m))
    ensures (m == k + 1 && c == StepKey(j, d, k)) || m == k - 1
  {
    if c.table == a && c.references == b && Match(c, RowAt(catalog, j, d, k), RowAt(catalog, j, d, m)) {
      MatchIsTarget(catalog, base, baseKey, j, d, k, m, c);
    } else {
      MatchIsTarget(catalog, base, baseKey, j, d, m, k, c);
    }
  }

  /** Row i of a chain of the witness is row i of the construction, and the chain has
      followed j, and then d, so far. */
  ghost predicate Follows(catalog: Catalog, j: Join, d: Constraint, x: Join, rows: seq<Row>, i: nat) {
    && i <= |j.tableIDs| == |j.fkeys| && i < |rows| == |x.tableIDs| == |x.fkeys|
    && rows[i] == RowAt(catalog, j, d, i) && x.tableIDs[i] == Node(j, d, i)
    && (i > 0 ==> x.fkeys[i] == StepKey(j, d, i - 1))
  }

  lemma {:induction false} ChainFollows(catalog: Catalog, base: TableID, baseKey: Constraint, j: Join, d: Constraint,
                       x: Join, rows: seq<Row>, i: nat)
    requires Missed(catalog, base, baseKey, j, d) && HasKey(catalog, base)
    requires SimplePath(catalog, base, baseKey, x)
    requires Chain(catalog, Witness(catalog, j, d), FirstRecord(catalog, j, d), x, rows) && i < |rows|
    ensures forall k :: 0 <= k <= i ==> Follows(catalog, j, d, x, rows, k)
  {
    var db := Witness(catalog, j, d);
    if i == 0 {
      FirstFollows(catalog, base, baseKey, j, d, x, rows);
    } else {
      ChainFollows(catalog, base, baseKey, j, d, x, rows, i - 1);
      assert Follows(catalog, j, d, x, rows, i - 1);
      assert rows[i] in RowsOf(db, x.tableIDs[i]);
      WitnessRow(catalog, j, d, x.tableIDs[i], rows[i]);
      var m :| 0 <= m <= |j.tableIDs| && Node(j, d, m) == x.tableIDs[i] && rows[i] == RowAt(catalog, j, d, m);
      assert IsForeignKey(catalog, x.fkeys[i]);
      Neighbours(catalog, base, baseKey, j, d, i - 1, m, x.fkeys[i], x.tableIDs[i - 1], x.tableIDs[i]);
      if m == i - 2 {
        assert Follows(catalog, j, d, x, rows, i - 2);
        assert Differ(x.tableIDs, i - 2, i);
      }
    }
  }

  lemma FirstFollows(catalog: Catalog, base: TableID, baseKey: Constraint, j: Join, d: Constraint, x: Join,
                     rows: seq<Row>)
    requires Missed(catalog, base, baseKey, j, d) && HasKey(catalog, base)
    requires SimplePath(catalog, base, baseKey, x)
    requires Chain(catalog, Witness(catalog, j, d), FirstRecord(catalog, j, d), x, rows)
    ensures Follows(catalog, j, d, x, rows, 0)
  {
    assert rows[0] in RowsOf(Witness(catalog, j, d), base);
    WitnessRow(catalog, j, d, base, rows[0]);
    var m :| 0 <= m <= |j.tableIDs| && Node(j, d, m) == base && rows[0] == RowAt(catalog, j, d, m);
    WitnessKeys(catalog, base, baseKey, j, d, 0);
    WitnessKeys(catalog, base, baseKey, j, d, m);
  }

  /** Only the chain j continued along d selects the last row. */
  lemma LastRowSelected(catalog: Catalog, base: TableID, baseKey: Constraint, j: Join, d: Constraint, x: Join)
    requires Missed(catalog, base, baseKey, j, d) && HasKey(catalog, base)
    requires SimplePath(catalog, base, baseKey, x) && End(x) == d.references
    requires Selects(catalog, Witness(catalog, j, d), FirstRecord(catalog, j, d), x, RowAt(catalog, j, d, |j.tableIDs|))
    ensures x == Snoc(j, d, d.references)
  {
    var n := |j.tableIDs|;
    var rows :| Chain(catalog, Witness(catalog, j, d), FirstRecord(catalog, j, d), x, rows)
                && rows[|rows| - 1] == RowAt(catalog, j, d, n);
    var last := |rows| - 1;
    ChainFollows(catalog, base, baseKey, j, d, x, rows, last);
    assert Follows(catalog, j, d, x, rows, last);
    LastNumber(catalog, base, baseKey, j, d, last);
    FollowsToTheEnd(catalog, base, baseKey, j, d, x, rows);
  }

  lemma FollowsToTheEnd(catalog: Catalog, base: TableID, baseKey: Constraint, j: Join, d: Constraint, x: Join,
                        rows: seq<Row>)
    requires |j.tableIDs| == |j.fkeys| && |rows| == |j.tableIDs| + 1
    requires forall k :: 0 <= k < |rows| ==> Follows(catalog, j, d, x, rows, k)
    requires 0 < |x.tableIDs| == |x.fkeys| && 0 < |j.fkeys| && x.fkeys[0] == j.fkeys[0]
    ensures x == Snoc(j, d, d.references)
  {
    assert Follows(catalog, j, d, x, rows, 0);
    forall k | 0 <= k < |rows|
      ensures x.tableIDs[k] == Node(j, d, k)
      ensures k > 0 ==> x.fkeys[k] == StepKey(j, d, k - 1)
    {
      assert Follows(catalog, j, d, x, rows, k);
    }
    assert x.tableIDs == j.tableIDs + [d.references];
    assert x.fkeys == j.fkeys + [d];
  }

  /** Rows of the same table have different numbers, hence differ. */
  lemma LastNumber(catalog: Catalog, base: TableID, baseKey: Constraint, j: Join, d: Constraint, k: nat)
    requires Missed(catalog, base, baseKey, j, d) && k <= |j.tableIDs|
    requires Node(j, d, k) == d.references && RowAt(catalog, j, d, k) == RowAt(catalog, j, d, |j.tableIDs|)
    ensures k == |j.tableIDs|
  {
    var n := |j.tableIDs|;
    MatchIsTarget(catalog, base, baseKey, j, d, n - 1, n, d);
    MatchIsTarget(catalog, base, baseKey, j, d, n - 1, k, d);
    LastTarget(catalog, base, baseKey, j, d);
  }

  lemma LastTarget(catalog: Catalog, base: TableID, baseKey: Constraint, j: Join, d: Constraint)
    requires Missed(catalog, base, baseKey, j, d)
    ensures Target(j, d, |j.tableIDs| - 1, d) == |j.tableIDs|
  {
  }

  // ----- intact on every database, exactly -----

  ghost predicate IntactAlways(catalog: Catalog, joins: Joins) {
    forall db, records {:trigger Intact(catalog, db, records, joins)} ::
      ValidDatabase(catalog, db) ==> Intact(catalog, db, records, joins)
  }

  lemma IntactContinues(catalog: Catalog, base: TableID, baseKey: Constraint, joins: Joins, j: Join, d: Constraint)
    requires GoodJoins(catalog, base, baseKey, joins) && Stored(joins, j) && IntactAlways(catalog, joins)
    requires Missed(catalog, base, baseKey, j, d) && HasKey(catalog, base) && HasKey(catalog, d.table)
    ensures Continued(joins, j, d) && HasKey(catalog, d.references)
  {
    var db, records := Witness(catalog, j, d), FirstRecord(catalog, j, d);
    var n := |j.tableIDs|;
    var row := RowAt(catalog, j, d, n - 1);
    WitnessIsValid(catalog, base, baseKey, j, d);
    WitnessSelected(catalog, base, baseKey, j, d);
    SelectedIsDumped(catalog, db, records, joins, j, d.table, row);
    FilledIsTarget(catalog, base, baseKey, j, d, n - 1, d);
    LastTarget(catalog, base, baseKey, j, d);
    assert Intact(catalog, db, records, joins);
    var parent :| Dumped(catalog, db, records, joins, d.references, parent) && Match(d, row, parent);
    WitnessRow(catalog, j, d, d.references, parent);
    var m :| 0 <= m <= n && Node(j, d, m) == d.references && parent == RowAt(catalog, j, d, m);
    MatchIsTarget(catalog, base, baseKey, j, d, n - 1, m, d);
    var x := DumpedIsSelected(catalog, db, records, joins, d.references, parent);
    assert x in joins[d.references];
    LastRowSelected(catalog, base, baseKey, j, d, x);
  }

  /** Where every table entered has a primary key, the dump is intact on every database
      exactly when the search missed no chain. */
  lemma IntactIsComplete(catalog: Catalog, base: TableID, baseKey: Constraint, joins: Joins)
    requires Closed(catalog) && Independent(catalog) && GoodJoins(catalog, base, baseKey, joins)
    requires forall id :: id in joins ==> HasKey(catalog, id)
    ensures IntactAlways(catalog, joins) <==> Complete(catalog, joins)
  {
    assert base in joins;
    if Complete(catalog, joins) {
      forall db, records | ValidDatabase(catalog, db) ensures Intact(catalog, db, records, joins) {
        CompleteIsIntact(catalog, base, baseKey, db, records, joins);
      }
    }
    if IntactAlways(catalog, joins) {
      forall j, c | Stored(joins, j) && IsForeignKey(catalog, c) && c.table == End(j)
        ensures CameAlong(j, c) || Continued(joins, j, c)
      {
        if !CameAlong(j, c) {
          assert SimplePath(catalog, base, baseKey, j) by { assert j in joins[End(j)]; }
          IntactContinues(catalog, base, baseKey, joins, j, c);
        }
      }
    }
  }
}
