/** When is a subset dump referentially intact? The exact answer for one subset query,
    in terms of the foreign-key graph, and the consequence for several. */
module SubsetIntegrity {
  import opened Common
  import opened ForeignKeys
  import opened JoinSearch
  import opened SearchCompleteness
  import opened SearchNecessity
  import opened SubsetRows
  import opened SubsetWitness

  // ----- Subset -----

  /** Every table the base depends on has a primary key. */
  ghost predicate AllKeyed(catalog: Catalog, base: TableID) {
    forall id :: Reaches(catalog, Parentward, {}, base, id) ==> HasKey(catalog, id)
  }

  lemma {:induction false} IntactNeedsKeys(catalog: Catalog, base: TableID, baseKey: Constraint, w: seq<Constraint>,
                                           id: TableID)
    requires Closed(catalog) && Independent(catalog) && HasKey(catalog, base)
    requires IntactAlways(catalog, PlainSearch(catalog, base, baseKey).joins)
    requires Walk(catalog, Parentward, {}, base, w, id)
    ensures HasKey(catalog, id)
  {
    if w == [] {
    } else {
      var c := w[|w| - 1];
      IntactNeedsKeys(catalog, base, baseKey, w[..|w| - 1], c.table);
      var start, final := PlainStart(catalog, base, baseKey), PlainSearch(catalog, base, baseKey);
      PlainPhase(catalog, base, baseKey);
      StartInv(catalog, base, baseKey, {}, start);
      RunInv(catalog, base, baseKey, {}, start, start);
      SubsetEnters(catalog, base, baseKey, c.table, c);
      var j := final.joins[c.table][0];
      assert j in final.joins[c.table];
      NotArrivedBy(catalog, base, baseKey, {}, start, final, j, c);
      IntactContinues(catalog, base, baseKey, final.joins, j, c);
    }
  }

  /** The dump of a subset query is referentially intact on every database, for every set
      of rows the query returns, exactly when every table the base depends on has a
      primary key, no such table depends on itself, and each one with foreign keys of its
      own is referenced by a single foreign key of the others. */
  lemma SubsetIntactExactly(catalog: Catalog, base: TableID, baseKey: Constraint)
    requires Closed(catalog) && Independent(catalog) && HasKey(catalog, base)
    ensures IntactAlways(catalog, PlainSearch(catalog, base, baseKey).joins) <==>
            AllKeyed(catalog, base) && Acyclic(catalog, {}, {base}) && SingleEntry(catalog, {}, {base})
  {
    var joins := PlainSearch(catalog, base, baseKey).joins;
    StoredChainsAreSimplePaths(catalog, base, baseKey, []);
    SubsetCompleteExactly(catalog, base, baseKey);
    forall id ensures id in joins <==> Reaches(catalog, Parentward, {}, base, id) {
      SubsetEnters(catalog, base, baseKey, id, baseKey);
    }
    if IntactAlways(catalog, joins) {
      forall id | Reaches(catalog, Parentward, {}, base, id) ensures HasKey(catalog, id) {
        var w :| Walk(catalog, Parentward, {}, base, w, id);
        IntactNeedsKeys(catalog, base, baseKey, w, id);
      }
    }
    if AllKeyed(catalog, base) {
      IntactIsComplete(catalog, base, baseKey, joins);
    }
  }

  /** One direction needs no more than that: whatever columns the keys have, join tables included, a subset of keyed
      tables without cycles and with single entries is intact on every database. */
  lemma SubsetIsIntact(catalog: Catalog, base: TableID, baseKey: Constraint)
    requires Closed(catalog) && AllKeyed(catalog, base)
    requires Acyclic(catalog, {}, {base}) && SingleEntry(catalog, {}, {base})
    ensures IntactAlways(catalog, PlainSearch(catalog, base, baseKey).joins)
  {
    var joins := PlainSearch(catalog, base, baseKey).joins;
    StoredChainsAreSimplePaths(catalog, base, baseKey, []);
    SubsetCompleteExactly(catalog, base, baseKey);
    forall id | id in joins ensures HasKey(catalog, id) {
      SubsetEnters(catalog, base, baseKey, id, baseKey);
    }
    AlwaysIntact(catalog, base, baseKey, joins);
  }

  lemma AlwaysIntact(catalog: Catalog, base: TableID, baseKey: Constraint, joins: Joins)
    requires GoodJoins(catalog, base, baseKey, joins) && Complete(catalog, joins)
    requires forall id :: id in joins ==> HasKey(catalog, id)
    ensures IntactAlways(catalog, joins)
  {
    forall db, records | ValidDatabase(catalog, db) ensures Intact(catalog, db, records, joins) {
      CompleteIsIntact(catalog, base, baseKey, db, records, joins);
    }
  }

  // ----- ExtendedSubset -----

  /** The same for an extended subset. */
  lemma ExtendedSubsetIsIntact(catalog: Catalog, base: TableID, baseKey: Constraint, order: seq<TableID>)
    requires Closed(catalog) && Lists(order, ChildSearch(catalog, base, baseKey).joins.Keys)
    requires forall id :: id in ExtendedSearch(catalog, base, baseKey, order).joins ==> HasKey(catalog, id)
    requires var children := ChildSearch(catalog, base, baseKey).joins.Keys;
      ChildTree(catalog, base, children) && Acyclic(catalog, children, children)
      && SingleEntry(catalog, children, children)
    ensures IntactAlways(catalog, ExtendedSearch(catalog, base, baseKey, order).joins)
  {
    StoredChainsAreSimplePaths(catalog, base, baseKey, order);
    ExtendedSubsetCompleteExactly(catalog, base, baseKey, order);
    AlwaysIntact(catalog, base, baseKey, ExtendedSearch(catalog, base, baseKey, order).joins);
  }

  /** Where every table involved has a primary key, an extended subset is intact on every
      database exactly when the tables depending on the base form a tree and what they
      depend on beyond themselves is acyclic with single entries. */
  lemma ExtendedSubsetIntactExactly(catalog: Catalog, base: TableID, baseKey: Constraint, order: seq<TableID>)
    requires Closed(catalog) && Independent(catalog)
    requires Lists(order, ChildSearch(catalog, base, baseKey).joins.Keys)
    requires forall id :: id in ExtendedSearch(catalog, base, baseKey, order).joins ==> HasKey(catalog, id)
    ensures var children := ChildSearch(catalog, base, baseKey).joins.Keys;
            IntactAlways(catalog, ExtendedSearch(catalog, base, baseKey, order).joins) <==>
            && ChildTree(catalog, base, children)
            && Acyclic(catalog, children, children) && SingleEntry(catalog, children, children)
  {
    StoredChainsAreSimplePaths(catalog, base, baseKey, order);
    ExtendedSubsetCompleteExactly(catalog, base, baseKey, order);
    IntactIsComplete(catalog, base, baseKey, ExtendedSearch(catalog, base, baseKey, order).joins);
  }

  // ----- several subset queries -----

  /** What one subset query has left in the subsetter: its table and the key that ties
      it to the query, the primary keys returned, and the chains found. */
  datatype SubsetRun = SubsetRun(base: TableID, baseKey: Constraint, records: set<seq<int>>, joins: Joins)

  ghost predicate DumpedByAny(catalog: Catalog, db: Database, runs: seq<SubsetRun>, id: TableID, row: Row) {
    exists run :: run in runs && Dumped(catalog, db, run.records, run.joins, id, row)
  }

  /** Any number of subset queries, each intact by itself, give one intact dump. */
  lemma ManyQueriesIntact(catalog: Catalog, db: Database, runs: seq<SubsetRun>, c: Constraint, row: Row)
    requires ValidDatabase(catalog, db)
    requires forall run :: run in runs ==> IntactAlways(catalog, run.joins)
    requires IsForeignKey(catalog, c) && DumpedByAny(catalog, db, runs, c.table, row) && Filled(row, c.columns)
    ensures exists parent :: DumpedByAny(catalog, db, runs, c.references, parent) && Match(c, row, parent)
  {
    var run :| run in runs && Dumped(catalog, db, run.records, run.joins, c.table, row);
    assert Intact(catalog, db, run.records, run.joins);
    var parent :| Dumped(catalog, db, run.records, run.joins, c.references, parent) && Match(c, row, parent);
    assert DumpedByAny(catalog, db, runs, c.references, parent);
  }

  // ----- a diamond that is not intact -----

  function Id(name: string): TableID {
    TableID("", name)
  }

  function Reference(address: nat, table: string, column: string, parent: string): Constraint {
    Constraint(address, ForeignKey, Id(table), [column], Id(parent), ["id"])
  }

  function Keyed(name: string, fkeys: seq<Constraint>): Table {
    Table(Id(name), [Constraint(0, PrimaryKey, Id(name), ["id"], Id(""), [])] + fkeys)
  }

  const TO_LEFT := Reference(1, "order", "left_id", "left")
  const TO_RIGHT := Reference(2, "order", "right_id", "right")
  const LEFT_CITY := Reference(3, "left", "city_id", "city")
  const RIGHT_CITY := Reference(4, "right", "city_id", "city")
  const CITY_COUNTRY := Reference(5, "city", "country_id", "country")

  /** order references left and right, both reference city, city references country. */
  const DIAMOND: Catalog := [
    Keyed("order", [TO_LEFT, TO_RIGHT]), Keyed("left", [LEFT_CITY]), Keyed("right", [RIGHT_CITY]),
    Keyed("city", [CITY_COUNTRY]), Keyed("country", [])]

  lemma {:induction false} ConstraintsAt(catalog: Catalog, i: nat)
    requires UniqueTables(catalog) && i < |catalog|
    ensures ConstraintsOf(catalog, catalog[i].id) == catalog[i].constraints
  {
    if i < |catalog| - 1 {
      assert catalog[..|catalog| - 1][i] == catalog[i];
      ConstraintsAt(catalog[..|catalog| - 1], i);
    }
  }

  lemma {:induction false} ConstraintsHaveTable(catalog: Catalog, id: TableID)
    ensures ConstraintsOf(catalog, id) != [] ==> HasTable(catalog, id)
  {
    if catalog == [] {
    } else {
      ConstraintsHaveTable(catalog[..|catalog| - 1], id);
    }
  }

  lemma DiamondKeys(c: Constraint)
    ensures IsForeignKey(DIAMOND, c) <==> c in {TO_LEFT, TO_RIGHT, LEFT_CITY, RIGHT_CITY, CITY_COUNTRY}
  {
    assert UniqueTables(DIAMOND);
    ConstraintsHaveTable(DIAMOND, c.table);
    ConstraintsAt(DIAMOND, 0);
    ConstraintsAt(DIAMOND, 1);
    ConstraintsAt(DIAMOND, 2);
    ConstraintsAt(DIAMOND, 3);
    ConstraintsAt(DIAMOND, 4);
  }

  lemma DiamondClosed()
    ensures Closed(DIAMOND)
  {
    assert DIAMOND[0] in DIAMOND && DIAMOND[1] in DIAMOND && DIAMOND[2] in DIAMOND && DIAMOND[3] in DIAMOND
        && DIAMOND[4] in DIAMOND;
  }

  lemma {:induction false} KeyedPrimaryKey(name: string, fkeys: seq<Constraint>)
    requires forall c :: c in fkeys ==> c.constraintType == ForeignKey
    ensures PrimaryKeyIn(Keyed(name, fkeys).constraints) == Some(["id"])
  {
    var constraints := Keyed(name, fkeys).constraints;
    if fkeys == [] {
    } else {
      assert constraints[..|constraints| - 1] == Keyed(name, fkeys[..|fkeys| - 1]).constraints;
      KeyedPrimaryKey(name, fkeys[..|fkeys| - 1]);
    }
  }

  lemma DiamondPrimaryKeys(id: TableID)
    ensures HasKey(DIAMOND, id) ==> PrimaryKeyOf(DIAMOND, id) == Some(["id"])
    ensures HasTable(DIAMOND, id) ==> HasKey(DIAMOND, id)
  {
    DiamondClosed();
    ConstraintsHaveTable(DIAMOND, id);
    if HasTable(DIAMOND, id) {
      var i :| 0 <= i < |DIAMOND| && DIAMOND[i].id == id;
      ConstraintsAt(DIAMOND, i);
      KeyedPrimaryKey("order", [TO_LEFT, TO_RIGHT]);
      KeyedPrimaryKey("left", [LEFT_CITY]);
      KeyedPrimaryKey("right", [RIGHT_CITY]);
      KeyedPrimaryKey("city", [CITY_COUNTRY]);
      KeyedPrimaryKey("country", []);
    }
  }

  lemma DiamondKeyColumns(id: TableID)
    ensures KeyColumns(DIAMOND, id) <= {"id"}
  {
    DiamondClosed();
    DiamondPrimaryKeys(id);
    forall c | c in ReferencedBy(DIAMOND, id) ensures c.referencesColumns == ["id"] {
      OutgoingMember(DIAMOND, Childward, id, c);
      ReferencedByMember(DIAMOND, id, c);
      DiamondKeys(c);
    }
  }

  lemma DiamondIndependent()
    ensures Independent(DIAMOND)
  {
    forall c | IsForeignKey(DIAMOND, c)
      ensures c.columns != [] && forall column :: column in c.columns ==> column !in KeyColumns(DIAMOND, c.table)
    {
      DiamondKeys(c);
      DiamondKeyColumns(c.table);
    }
    forall id | HasKey(DIAMOND, id) ensures PrimaryKeyOf(DIAMOND, id).value != [] {
      DiamondPrimaryKeys(id);
    }
    forall c, d, column | IsForeignKey(DIAMOND, c) && IsForeignKey(DIAMOND, d) && c.table == d.table
                          && column in c.columns && column in d.columns
      ensures c == d
    {
      DiamondKeys(c);
      DiamondKeys(d);
    }
  }

  lemma DiamondEnteredTwice()
    ensures !SingleEntry(DIAMOND, {}, {Id("order")})
  {
    var order := Id("order");
    DiamondKeys(TO_LEFT);
    DiamondKeys(TO_RIGHT);
    DiamondKeys(LEFT_CITY);
    DiamondKeys(RIGHT_CITY);
    DiamondKeys(CITY_COUNTRY);
    SourcesAreDependencies(DIAMOND, {}, {order});
    DependencyStep(DIAMOND, {}, {order}, TO_LEFT);
    DependencyStep(DIAMOND, {}, {order}, TO_RIGHT);
    if SingleEntry(DIAMOND, {}, {order}) {
      OnlyEntry(DIAMOND, {}, {order}, LEFT_CITY, RIGHT_CITY, CITY_COUNTRY);
    }
  }

  /** The documented promise fails on a diamond: some database has a dump of "order" that
      is not referentially intact. */
  lemma DiamondIsNotIntact(baseKey: Constraint)
    ensures Closed(DIAMOND) && !IntactAlways(DIAMOND, PlainSearch(DIAMOND, Id("order"), baseKey).joins)
  {
    DiamondClosed();
    DiamondIndependent();
    assert HasTable(DIAMOND, Id("order")) by { assert DIAMOND[0] in DIAMOND; }
    DiamondPrimaryKeys(Id("order"));
    DiamondEnteredTwice();
    SubsetIntactExactly(DIAMOND, Id("order"), baseKey);
  }
}
