/** The search for join chains: a stack of constraints still to visit, the constraints
    already visited, and for each table the chains that lead from it back to the base
    table of the subset query. */
module JoinSearch {
  import opened Common
  import opened ForeignKeys

  /** A chain of tables joined by foreign keys. fkeys[0] ties tableIDs[0] to the rows of
      the subset query; fkeys[k] ties tableIDs[k] to tableIDs[k-1]. */
  datatype Join = Join(tableIDs: seq<TableID>, fkeys: seq<Constraint>)

  type Joins = map<TableID, seq<Join>>

  datatype Search = Search(joins: Joins, visited: set<Constraint>, toVisit: seq<Constraint>)

  function JoinsOf(joins: Joins, id: TableID): seq<Join> {
    if id in joins then joins[id] else []
  }

  function Snoc(j: Join, c: Constraint, id: TableID): Join {
    Join(j.tableIDs + [id], j.fkeys + [c])
  }

  /** Every chain of the list that does not pass through `id` yet, extended to it along c. */
  function Extend(js: seq<Join>, c: Constraint, id: TableID): seq<Join> {
    if js == [] then []
    else
      var j := js[|js| - 1];
      Extend(js[..|js| - 1], c, id) + (if id in j.tableIDs then [] else [Snoc(j, c, id)])
  }

  lemma {:induction false} ExtendMember(js: seq<Join>, c: Constraint, id: TableID, x: Join)
    ensures x in Extend(js, c, id) <==> exists j :: j in js && id !in j.tableIDs && x == Snoc(j, c, id)
  {
    if js == [] {
    } else {
      ExtendMember(js[..|js| - 1], c, id, x);
      assert js == js[..|js| - 1] + [js[|js| - 1]];
    }
  }

  /** One round of either loop of the search: the topmost constraint is popped; a foreign
      key not visited before is followed once, for all the chains its tail has by then. */
  function Step(catalog: Catalog, dir: Direction, st: Search): Search
    requires st.toVisit != []
  {
    var c := st.toVisit[|st.toVisit| - 1];
    var rest := st.toVisit[..|st.toVisit| - 1];
    if c.constraintType != ForeignKey || c in st.visited then st.(toVisit := rest)
    else
      Search(st.joins[Head(dir, c) := JoinsOf(st.joins, Head(dir, c))
                                      + Extend(JoinsOf(st.joins, Tail(dir, c)), c, Head(dir, c))],
             st.visited + {c},
             rest + Outgoing(catalog, dir, Head(dir, c)))
  }

  /** Only foreign keys of the catalog wait on the stack. */
  ghost predicate Queued(catalog: Catalog, st: Search) {
    forall c {:trigger c in st.toVisit} :: c in st.toVisit && c.constraintType == ForeignKey ==>
        IsForeignKey(catalog, c)
  }

  function AllConstraints(catalog: Catalog): set<Constraint> {
    set i, k | 0 <= i < |catalog| && 0 <= k < |catalog[i].constraints| :: catalog[i].constraints[k]
  }

  lemma ForeignKeyInCatalog(catalog: Catalog, c: Constraint)
    requires Closed(catalog) && IsForeignKey(catalog, c)
    ensures c in AllConstraints(catalog)
  {
    ConstraintsOfMember(catalog, c.table, c);
    var table :| table in catalog && c in table.constraints;
    var i :| 0 <= i < |catalog| && catalog[i] == table;
    var k :| 0 <= k < |table.constraints| && table.constraints[k] == c;
  }

  /** What waits after a round was waiting before, or leaves the table just entered. */
  lemma StillWaiting(catalog: Catalog, dir: Direction, st: Search, d: Constraint)
    requires st.toVisit != []
    ensures var c := st.toVisit[|st.toVisit| - 1];
            && c in st.toVisit
            && (d in Step(catalog, dir, st).toVisit ==>
                  d in st.toVisit
                  || (c.constraintType == ForeignKey && c !in st.visited && d in Outgoing(catalog, dir, Head(dir, c))))
            && (d in st.toVisit ==> d in Step(catalog, dir, st).toVisit || d == c)
  {
    assert st.toVisit == st.toVisit[..|st.toVisit| - 1] + [st.toVisit[|st.toVisit| - 1]];
  }

  lemma StepQueued(catalog: Catalog, dir: Direction, st: Search)
    requires Closed(catalog) && Queued(catalog, st) && st.toVisit != []
    ensures Queued(catalog, Step(catalog, dir, st))
    ensures var next := Step(catalog, dir, st);
            AllConstraints(catalog) - next.visited < AllConstraints(catalog) - st.visited
            || (next.visited == st.visited && |next.toVisit| < |st.toVisit|)
  {
    var c := st.toVisit[|st.toVisit| - 1];
    assert c in st.toVisit;
    forall d | d in Step(catalog, dir, st).toVisit && d.constraintType == ForeignKey ensures IsForeignKey(catalog, d) {
      StillWaiting(catalog, dir, st, d);
      OutgoingMember(catalog, dir, Head(dir, c), d);
    }
    if c.constraintType == ForeignKey && c !in st.visited {
      ForeignKeyInCatalog(catalog, c);
      assert c in AllConstraints(catalog) - st.visited;
    }
  }

  /** The loop run until the stack is empty; it ends on cyclic graphs too, because the
      set of constraints not visited shrinks or else the stack does. */
  ghost function Run(catalog: Catalog, dir: Direction, st: Search): (final: Search)
    requires Closed(catalog) && Queued(catalog, st)
    ensures final.toVisit == []
    decreases AllConstraints(catalog) - st.visited, |st.toVisit|
  {
    if st.toVisit == [] then st
    else
      StepQueued(catalog, dir, st);
      Run(catalog, dir, Step(catalog, dir, st))
  }

  // ----- the two searches -----

  function StartJoins(base: TableID, baseKey: Constraint): Joins {
    map[base := [Join([base], [baseKey])]]
  }

  /** Subset: follow foreign keys towards the tables the base depends on. */
  ghost function PlainSearch(catalog: Catalog, base: TableID, baseKey: Constraint): Search
    requires Closed(catalog)
  {
    StartQueued(catalog, Parentward, [base]);
    Run(catalog, Parentward, PlainStart(catalog, base, baseKey))
  }

  function PlainStart(catalog: Catalog, base: TableID, baseKey: Constraint): Search {
    Search(StartJoins(base, baseKey), {}, ConstraintsOf(catalog, base))
  }

  /** The first phase of ExtendedSubset: follow foreign keys to the tables that depend on the base. */
  ghost function ChildSearch(catalog: Catalog, base: TableID, baseKey: Constraint): Search
    requires Closed(catalog)
  {
    StartQueued(catalog, Childward, [base]);
    assert base in [base];
    Run(catalog, Childward, ChildStart(catalog, base, baseKey))
  }

  function ChildStart(catalog: Catalog, base: TableID, baseKey: Constraint): Search {
    Search(StartJoins(base, baseKey), {}, ReferencedBy(catalog, base))
  }

  /** The constraints of several tables, one table after the other. */
  function ConstraintsOfAll(catalog: Catalog, ids: seq<TableID>): seq<Constraint> {
    if ids == [] then [] else ConstraintsOfAll(catalog, ids[..|ids| - 1]) + ConstraintsOf(catalog, ids[|ids| - 1])
  }

  lemma {:induction false} ConstraintsOfAllMember(catalog: Catalog, ids: seq<TableID>, c: Constraint)
    ensures c in ConstraintsOfAll(catalog, ids) <==> exists id :: id in ids && c in ConstraintsOf(catalog, id)
  {
    if ids == [] {
    } else {
      var init, last := ids[..|ids| - 1], ids[|ids| - 1];
      ConstraintsOfAllMember(catalog, init, c);
      assert ids == init + [last];
      if c in ConstraintsOf(catalog, last) {
        assert last in ids;
      } else if c in ConstraintsOfAll(catalog, init) {
        var id :| id in init && c in ConstraintsOf(catalog, id);
        assert id in ids;
      }
    }
  }

  /** `order` lists the tables of the first phase; the code sorts them by name, and
      nothing below depends on the order. */
  ghost predicate Lists(order: seq<TableID>, ids: set<TableID>) {
    forall id :: id in order <==> id in ids
  }

  ghost function ExtendedSearch(catalog: Catalog, base: TableID, baseKey: Constraint, order: seq<TableID>): Search
    requires Closed(catalog)
  {
    StartQueued(catalog, Parentward, order);
    Run(catalog, Parentward, ParentStart(catalog, ChildSearch(catalog, base, baseKey), order))
  }

  function ParentStart(catalog: Catalog, st: Search, order: seq<TableID>): Search {
    Search(st.joins, st.visited, ConstraintsOfAll(catalog, order))
  }

  lemma StartQueued(catalog: Catalog, dir: Direction, ids: seq<TableID>)
    requires Closed(catalog)
    ensures forall id, c :: id in ids && c in Outgoing(catalog, dir, id) && c.constraintType == ForeignKey ==>
              IsForeignKey(catalog, c)
    ensures forall c :: c in ConstraintsOfAll(catalog, ids) && c.constraintType == ForeignKey ==>
              IsForeignKey(catalog, c)
  {
    forall id, c | id in ids && c in Outgoing(catalog, dir, id) && c.constraintType == ForeignKey
      ensures IsForeignKey(catalog, c)
    {
      OutgoingMember(catalog, dir, id, c);
    }
    forall c | c in ConstraintsOfAll(catalog, ids) && c.constraintType == ForeignKey
      ensures IsForeignKey(catalog, c)
    {
      ConstraintsOfAllMember(catalog, ids, c);
      var id :| id in ids && c in ConstraintsOf(catalog, id);
      OutgoingMember(catalog, Parentward, id, c);
    }
  }

  // ----- what every round keeps -----

  function End(j: Join): TableID
    requires j.tableIDs != []
  {
    j.tableIDs[|j.tableIDs| - 1]
  }

  function Prefix(j: Join): Join
    requires |j.tableIDs| > 0 && |j.fkeys| > 0
  {
    Join(j.tableIDs[..|j.tableIDs| - 1], j.fkeys[..|j.fkeys| - 1])
  }

  /** Two tables are the two ends of a foreign key, in one direction or the other. */
  predicate Links(c: Constraint, a: TableID, b: TableID) {
    (c.table == a && c.references == b) || (c.table == b && c.references == a)
  }

  predicate Differ(ids: seq<TableID>, i: nat, k: nat)
    requires i < |ids| && k < |ids|
  {
    ids[i] != ids[k]
  }

  ghost predicate Distinct(ids: seq<TableID>) {
    forall i, k {:trigger Differ(ids, i, k)} :: 0 <= i < k < |ids| ==> Differ(ids, i, k)
  }

  /** A chain that starts with the base and its key, meets no table twice, and links
      each table to the one before by a foreign key of the catalog. */
  ghost predicate SimplePath(catalog: Catalog, base: TableID, baseKey: Constraint, j: Join) {
    && 0 < |j.tableIDs| == |j.fkeys|
    && j.tableIDs[0] == base && j.fkeys[0] == baseKey
    && Distinct(j.tableIDs)
    && (forall k {:trigger j.fkeys[k]} :: 0 < k < |j.fkeys| ==>
          IsForeignKey(catalog, j.fkeys[k]) && Links(j.fkeys[k], j.tableIDs[k - 1], j.tableIDs[k]))
  }

  predicate Stored(joins: Joins, j: Join) {
    j.tableIDs != [] && End(j) in joins && j in joins[End(j)]
  }

  predicate PrefixStored(joins: Joins, j: Join) {
    1 < |j.tableIDs| == |j.fkeys| ==> Stored(joins, Prefix(j))
  }

  /** Every stored chain is a simple path kept under its last table, along with all its
      prefixes, and no table is entered without a chain. */
  ghost predicate GoodJoins(catalog: Catalog, base: TableID, baseKey: Constraint, joins: Joins) {
    && Stored(joins, Join([base], [baseKey]))
    && (forall id :: id in joins ==> joins[id] != [])
    && (forall id, j {:trigger j in joins[id]} :: id in joins && j in joins[id] ==>
          SimplePath(catalog, base, baseKey, j) && End(j) == id)
    && (forall j {:trigger PrefixStored(joins, j)} :: Stored(joins, j) ==> PrefixStored(joins, j))
  }

  /** Foreign keys out of the tables entered so far are visited or waiting. */
  ghost predicate Frontier(catalog: Catalog, dir: Direction, st: Search) {
    && Queued(catalog, st)
    && (forall c {:trigger c in st.toVisit} :: c in st.toVisit && c.constraintType == ForeignKey ==>
          Tail(dir, c) in st.joins)
    && (forall c {:trigger c in st.visited} :: c in st.visited ==>
          IsForeignKey(catalog, c) && c.table in st.joins && c.references in st.joins)
    && (forall c {:trigger IsForeignKey(catalog, c)} :: IsForeignKey(catalog, c) && Tail(dir, c) in st.joins ==>
          c in st.visited || c in st.toVisit)
  }

  /** A chain met along the way to a table that some chain passes through. */
  lemma {:induction false} TablesOnPathAreKeys(catalog: Catalog, base: TableID, baseKey: Constraint, joins: Joins,
                                               j: Join, k: nat)
    requires GoodJoins(catalog, base, baseKey, joins) && Stored(joins, j) && k < |j.tableIDs|
    ensures j.tableIDs[k] in joins
    decreases |j.tableIDs|
  {
    if k < |j.tableIDs| - 1 {
      assert PrefixStored(joins, j);
      TablesOnPathAreKeys(catalog, base, baseKey, joins, Prefix(j), k);
    }
  }

  lemma SnocSimple(catalog: Catalog, base: TableID, baseKey: Constraint, j: Join, c: Constraint, id: TableID)
    requires SimplePath(catalog, base, baseKey, j) && id !in j.tableIDs
    requires IsForeignKey(catalog, c) && Links(c, End(j), id)
    ensures SimplePath(catalog, base, baseKey, Snoc(j, c, id)) && Prefix(Snoc(j, c, id)) == j
  {
    var ids := Snoc(j, c, id).tableIDs;
    forall i, k | 0 <= i < k < |ids| ensures Differ(ids, i, k) {
      if k < |j.tableIDs| {
        assert Differ(j.tableIDs, i, k);
      }
    }
  }

  /** What one round adds to the table it enters. */
  lemma GrownChains(catalog: Catalog, base: TableID, baseKey: Constraint, joins: Joins,
                    dir: Direction, c: Constraint, x: Join)
    requires GoodJoins(catalog, base, baseKey, joins)
    requires IsForeignKey(catalog, c) && Tail(dir, c) in joins
    requires x in Extend(joins[Tail(dir, c)], c, Head(dir, c))
    ensures SimplePath(catalog, base, baseKey, x) && End(x) == Head(dir, c)
    ensures |x.tableIDs| > 1 && Prefix(x) in joins[Tail(dir, c)] && x == Snoc(Prefix(x), c, Head(dir, c))
    ensures Stored(joins, Prefix(x))
  {
    var a, b := Tail(dir, c), Head(dir, c);
    ExtendMember(joins[a], c, b, x);
    var j :| j in joins[a] && b !in j.tableIDs && x == Snoc(j, c, b);
    SnocSimple(catalog, base, baseKey, j, c, b);
  }

  /** A table entered for the first time gets a chain. */
  lemma GrownNonempty(catalog: Catalog, base: TableID, baseKey: Constraint, joins: Joins, dir: Direction, c: Constraint)
    requires GoodJoins(catalog, base, baseKey, joins)
    requires Tail(dir, c) in joins && Head(dir, c) !in joins
    ensures Extend(joins[Tail(dir, c)], c, Head(dir, c)) != []
  {
    var a, b := Tail(dir, c), Head(dir, c);
    var j := joins[a][0];
    if b in j.tableIDs {
      var k :| 0 <= k < |j.tableIDs| && j.tableIDs[k] == b;
      assert j in joins[a];
      TablesOnPathAreKeys(catalog, base, baseKey, joins, j, k);
    }
    ExtendMember(joins[a], c, b, Snoc(j, c, b));
  }

  lemma StepGoodJoins(catalog: Catalog, base: TableID, baseKey: Constraint, dir: Direction, st: Search)
    requires Closed(catalog) && st.toVisit != []
    requires GoodJoins(catalog, base, baseKey, st.joins) && Frontier(catalog, dir, st)
    ensures GoodJoins(catalog, base, baseKey, Step(catalog, dir, st).joins)
    ensures forall x :: Stored(st.joins, x) ==> Stored(Step(catalog, dir, st).joins, x)
  {
    var next := Step(catalog, dir, st);
    var c := st.toVisit[|st.toVisit| - 1];
    assert c in st.toVisit;
    if c.constraintType == ForeignKey && c !in st.visited {
      var a, b := Tail(dir, c), Head(dir, c);
      forall x | Stored(st.joins, x) ensures Stored(next.joins, x) {
        assert x in next.joins[End(x)];
      }
      if b !in st.joins {
        GrownNonempty(catalog, base, baseKey, st.joins, dir, c);
      }
      forall id, j | id in next.joins && j in next.joins[id]
        ensures SimplePath(catalog, base, baseKey, j) && End(j) == id
        ensures PrefixStored(next.joins, j)
      {
        if id in st.joins && j in st.joins[id] {
          assert SimplePath(catalog, base, baseKey, j) && Stored(st.joins, j);
          assert PrefixStored(st.joins, j);
        } else {
          GrownChains(catalog, base, baseKey, st.joins, dir, c, j);
        }
      }
    }
  }

  lemma StepFrontier(catalog: Catalog, dir: Direction, st: Search)
    requires Closed(catalog) && st.toVisit != [] && Frontier(catalog, dir, st)
    ensures Frontier(catalog, dir, Step(catalog, dir, st))
  {
    var next := Step(catalog, dir, st);
    var c := st.toVisit[|st.toVisit| - 1];
    assert c in st.toVisit;
    StepQueued(catalog, dir, st);
    forall d | d in next.toVisit && d.constraintType == ForeignKey ensures Tail(dir, d) in next.joins {
      StillWaiting(catalog, dir, st, d);
      OutgoingMember(catalog, dir, Head(dir, c), d);
    }
    forall d | IsForeignKey(catalog, d) && Tail(dir, d) in next.joins
      ensures d in next.visited || d in next.toVisit
    {
      StillWaiting(catalog, dir, st, d);
      OutgoingMember(catalog, dir, Head(dir, c), d);
    }
  }

  lemma {:induction false} RunGood(catalog: Catalog, base: TableID, baseKey: Constraint, dir: Direction, st: Search)
    requires Closed(catalog)
    requires GoodJoins(catalog, base, baseKey, st.joins) && Frontier(catalog, dir, st)
    ensures GoodJoins(catalog, base, baseKey, Run(catalog, dir, st).joins)
    ensures Frontier(catalog, dir, Run(catalog, dir, st))
    ensures forall x :: Stored(st.joins, x) ==> Stored(Run(catalog, dir, st).joins, x)
    decreases AllConstraints(catalog) - st.visited, |st.toVisit|
  {
    if st.toVisit == [] {
    } else {
      StepQueued(catalog, dir, st);
      StepGoodJoins(catalog, base, baseKey, dir, st);
      StepFrontier(catalog, dir, st);
      RunGood(catalog, base, baseKey, dir, Step(catalog, dir, st));
    }
  }

  // ----- where the searches start -----

  lemma StartGood(catalog: Catalog, base: TableID, baseKey: Constraint)
    requires Closed(catalog)
    ensures GoodJoins(catalog, base, baseKey, StartJoins(base, baseKey))
    ensures Frontier(catalog, Parentward, PlainStart(catalog, base, baseKey))
    ensures Frontier(catalog, Childward, ChildStart(catalog, base, baseKey))
  {
    var j := Join([base], [baseKey]);
    assert Stored(StartJoins(base, baseKey), j);
    forall c, dir ensures c in Outgoing(catalog, dir, base) && c.constraintType == ForeignKey <==>
                          IsForeignKey(catalog, c) && Tail(dir, c) == base
    {
      OutgoingMember(catalog, dir, base, c);
    }
    assert forall c :: c in ConstraintsOf(catalog, base) <==> c in Outgoing(catalog, Parentward, base);
    assert forall c :: c in ReferencedBy(catalog, base) <==> c in Outgoing(catalog, Childward, base);
  }

  /** The second phase of ExtendedSubset starts with every table of the first phase waiting. */
  lemma ParentStartGood(catalog: Catalog, base: TableID, baseKey: Constraint, order: seq<TableID>)
    requires Closed(catalog) && Lists(order, ChildSearch(catalog, base, baseKey).joins.Keys)
    ensures var mid := ChildSearch(catalog, base, baseKey);
            && GoodJoins(catalog, base, baseKey, mid.joins)
            && Frontier(catalog, Childward, mid) && mid.toVisit == []
            && Frontier(catalog, Parentward, ParentStart(catalog, mid, order))
  {
    StartGood(catalog, base, baseKey);
    RunGood(catalog, base, baseKey, Childward, ChildStart(catalog, base, baseKey));
    var mid := ChildSearch(catalog, base, baseKey);
    var st := ParentStart(catalog, mid, order);
    StartQueued(catalog, Parentward, order);
    forall c | c in st.toVisit && c.constraintType == ForeignKey ensures c.table in st.joins {
      ConstraintsOfAllMember(catalog, order, c);
      var id :| id in order && c in ConstraintsOf(catalog, id);
      OutgoingMember(catalog, Parentward, id, c);
    }
    forall c | IsForeignKey(catalog, c) && c.table in st.joins ensures c in st.toVisit {
      assert c.table in order;
      ConstraintsOfAllMember(catalog, order, c);
    }
  }

  /** Every chain either search stores is a simple path along foreign keys back to the
      base, kept under its last table, and every table entered has one. */
  lemma StoredChainsAreSimplePaths(catalog: Catalog, base: TableID, baseKey: Constraint, order: seq<TableID>)
    requires Closed(catalog)
    ensures GoodJoins(catalog, base, baseKey, PlainSearch(catalog, base, baseKey).joins)
    ensures Lists(order, ChildSearch(catalog, base, baseKey).joins.Keys) ==>
              GoodJoins(catalog, base, baseKey, ExtendedSearch(catalog, base, baseKey, order).joins)
  {
    StartGood(catalog, base, baseKey);
    RunGood(catalog, base, baseKey, Parentward, PlainStart(catalog, base, baseKey));
    var mid := ChildSearch(catalog, base, baseKey);
    if Lists(order, mid.joins.Keys) {
      ParentStartGood(catalog, base, baseKey, order);
      RunGood(catalog, base, baseKey, Parentward, ParentStart(catalog, mid, order));
    }
  }

  // ----- which tables are entered -----

  ghost predicate ReachedFrom(catalog: Catalog, dir: Direction, sources: set<TableID>, id: TableID) {
    exists source :: source in sources && Reaches(catalog, dir, {}, source, id)
  }

  lemma {:induction false} RunEntersOnlyReached(catalog: Catalog, dir: Direction, sources: set<TableID>, st: Search)
    requires Closed(catalog) && Frontier(catalog, dir, st)
    requires forall id :: id in st.joins ==> ReachedFrom(catalog, dir, sources, id)
    ensures forall id :: id in Run(catalog, dir, st).joins ==> ReachedFrom(catalog, dir, sources, id)
    decreases AllConstraints(catalog) - st.visited, |st.toVisit|
  {
    if st.toVisit == [] {
    } else {
      var c := st.toVisit[|st.toVisit| - 1];
      assert c in st.toVisit;
      if c.constraintType == ForeignKey {
        var source :| source in sources && Reaches(catalog, dir, {}, source, Tail(dir, c));
        ReachesStep(catalog, dir, {}, source, c);
      }
      StepQueued(catalog, dir, st);
      StepFrontier(catalog, dir, st);
      RunEntersOnlyReached(catalog, dir, sources, Step(catalog, dir, st));
    }
  }

  lemma {:induction false} EntersAllReached(catalog: Catalog, dir: Direction, final: Search,
                                            source: TableID, w: seq<Constraint>, id: TableID)
    requires Frontier(catalog, dir, final) && final.toVisit == []
    requires source in final.joins && Walk(catalog, dir, {}, source, w, id)
    ensures id in final.joins
  {
    if w == [] {
    } else {
      var c := w[|w| - 1];
      EntersAllReached(catalog, dir, final, source, w[..|w| - 1], Tail(dir, c));
      assert c in final.visited;
    }
  }

  lemma {:induction false} RunKeepsTables(catalog: Catalog, dir: Direction, st: Search)
    requires Closed(catalog) && Frontier(catalog, dir, st)
    ensures st.joins.Keys <= Run(catalog, dir, st).joins.Keys
    ensures Frontier(catalog, dir, Run(catalog, dir, st))
    decreases AllConstraints(catalog) - st.visited, |st.toVisit|
  {
    if st.toVisit == [] {
    } else {
      StepQueued(catalog, dir, st);
      StepFrontier(catalog, dir, st);
      RunKeepsTables(catalog, dir, Step(catalog, dir, st));
    }
  }

  lemma RunEntersAll(catalog: Catalog, dir: Direction, sources: set<TableID>, final: Search, id: TableID)
    requires Frontier(catalog, dir, final) && final.toVisit == [] && sources <= final.joins.Keys
    requires ReachedFrom(catalog, dir, sources, id)
    ensures id in final.joins
  {
    var source :| source in sources && Reaches(catalog, dir, {}, source, id);
    var w :| Walk(catalog, dir, {}, source, w, id);
    EntersAllReached(catalog, dir, final, source, w, id);
  }

  lemma SourcesAreReached(catalog: Catalog, dir: Direction, sources: set<TableID>)
    ensures forall id :: id in sources ==> ReachedFrom(catalog, dir, sources, id)
  {
    forall id | id in sources ensures ReachedFrom(catalog, dir, sources, id) {
      ReachesSelf(catalog, dir, {}, id);
    }
  }

  lemma RunEntersExactly(catalog: Catalog, dir: Direction, st: Search, id: TableID)
    requires Closed(catalog) && Frontier(catalog, dir, st)
    ensures id in Run(catalog, dir, st).joins <==> ReachedFrom(catalog, dir, st.joins.Keys, id)
  {
    SourcesAreReached(catalog, dir, st.joins.Keys);
    RunEntersOnlyReached(catalog, dir, st.joins.Keys, st);
    RunKeepsTables(catalog, dir, st);
    if ReachedFrom(catalog, dir, st.joins.Keys, id) {
      RunEntersAll(catalog, dir, st.joins.Keys, Run(catalog, dir, st), id);
    }
  }

  /** Subset enters exactly the tables the base depends on, directly or indirectly,
      and follows exactly the foreign keys of those. */
  lemma SubsetEnters(catalog: Catalog, base: TableID, baseKey: Constraint, id: TableID, c: Constraint)
    requires Closed(catalog)
    ensures var final := PlainSearch(catalog, base, baseKey);
            && (id in final.joins <==> Reaches(catalog, Parentward, {}, base, id))
            && (c in final.visited <==> IsForeignKey(catalog, c) && c.table in final.joins)
  {
    var st := PlainStart(catalog, base, baseKey);
    StartGood(catalog, base, baseKey);
    RunEntersExactly(catalog, Parentward, st, id);
    RunKeepsTables(catalog, Parentward, st);
    OnlySource(catalog, Parentward, base, id);
    assert st.joins.Keys == {base};
  }

  lemma OnlySource(catalog: Catalog, dir: Direction, source: TableID, id: TableID)
    ensures ReachedFrom(catalog, dir, {source}, id) <==> Reaches(catalog, dir, {}, source, id)
  {
  }

  /** The first phase of ExtendedSubset enters exactly the tables that depend on the
      base, any number of steps away; after the second phase exactly the tables that one
      of those depends on have been entered. */
  lemma ExtendedSubsetEnters(catalog: Catalog, base: TableID, baseKey: Constraint, order: seq<TableID>, id: TableID)
    requires Closed(catalog)
    requires Lists(order, ChildSearch(catalog, base, baseKey).joins.Keys)
    ensures id in ChildSearch(catalog, base, baseKey).joins <==> Reaches(catalog, Childward, {}, base, id)
    ensures id in ExtendedSearch(catalog, base, baseKey, order).joins <==>
            exists child :: Reaches(catalog, Childward, {}, base, child) && Reaches(catalog, Parentward, {}, child, id)
  {
    ChildSearchEnters(catalog, base, baseKey);
    var mid := ChildSearch(catalog, base, baseKey);
    ParentStartGood(catalog, base, baseKey, order);
    RunEntersExactly(catalog, Parentward, ParentStart(catalog, mid, order), id);
    assert id in ExtendedSearch(catalog, base, baseKey, order).joins <==>
           ReachedFrom(catalog, Parentward, mid.joins.Keys, id);
  }

  lemma ChildSearchEnters(catalog: Catalog, base: TableID, baseKey: Constraint)
    requires Closed(catalog)
    ensures forall id :: id in ChildSearch(catalog, base, baseKey).joins <==> Reaches(catalog, Childward, {}, base, id)
  {
    var st := ChildStart(catalog, base, baseKey);
    StartGood(catalog, base, baseKey);
    assert st.joins.Keys == {base};
    forall id ensures id in ChildSearch(catalog, base, baseKey).joins <==> Reaches(catalog, Childward, {}, base, id) {
      RunEntersExactly(catalog, Childward, st, id);
      OnlySource(catalog, Childward, base, id);
    }
  }
}
