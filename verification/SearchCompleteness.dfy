/** When the join search misses nothing. A constraint is followed once, with the chains
    its table has at that moment, so a chain found later is not pushed further. Here the
    graphs on which no chain is missed are characterized exactly. */
module SearchCompleteness {
  import opened Common
  import opened ForeignKeys
  import opened JoinSearch

  function LastKey(j: Join): Constraint
    requires j.fkeys != []
  {
    j.fkeys[|j.fkeys| - 1]
  }

  /** The chain reached its last table from the parent that c references. */
  predicate CameAlong(j: Join, c: Constraint) {
    |j.fkeys| > 1 && LastKey(j) == c
  }

  /** Every stored chain is continued along every foreign key of its last table, except
      the one it arrived by. */
  ghost predicate Complete(catalog: Catalog, joins: Joins) {
    forall j, c {:trigger Continued(joins, j, c)} ::
        Stored(joins, j) && IsForeignKey(catalog, c) && c.table == End(j) ==>
      CameAlong(j, c) || Continued(joins, j, c)
  }

  /** The chain is also stored with one more step, along c. */
  predicate Continued(joins: Joins, j: Join, c: Constraint) {
    Stored(joins, Snoc(j, c, c.references))
  }

  // ----- the graph conditions -----

  /** id is reached from a source along foreign keys that lead outside `blocked`. */
  ghost predicate Dependency(catalog: Catalog, blocked: set<TableID>, sources: set<TableID>, id: TableID) {
    exists source :: source in sources && Reaches(catalog, Parentward, blocked, source, id)
  }

  /** No table that the sources depend on depends on itself. */
  ghost predicate Acyclic(catalog: Catalog, blocked: set<TableID>, sources: set<TableID>) {
    forall id, w :: Dependency(catalog, blocked, sources, id) && w != [] ==>
      !Walk(catalog, Parentward, blocked, id, w, id)
  }

  /** A table with foreign keys of its own is the parent in at most one foreign key. */
  ghost predicate SingleEntry(catalog: Catalog, blocked: set<TableID>, sources: set<TableID>) {
    forall c1, c2, d {:trigger IsForeignKey(catalog, c1), IsForeignKey(catalog, c2), IsForeignKey(catalog, d)} ::
      && IsForeignKey(catalog, c1) && IsForeignKey(catalog, c2) && IsForeignKey(catalog, d)
      && Dependency(catalog, blocked, sources, c1.table) && Dependency(catalog, blocked, sources, c2.table)
      && c1.references == c2.references == d.table && d.table !in blocked && d.references !in blocked
      ==> c1 == c2
  }

  // ----- how the parent-ward loop starts -----

  /** The state before the parent-ward loop. For Subset nothing is blocked; for
      ExtendedSubset the tables of the first phase are, since the keys into them have
      been visited. */
  ghost predicate ParentPhase(catalog: Catalog, base: TableID, baseKey: Constraint, blocked: set<TableID>,
                              start: Search) {
    && Closed(catalog)
    && GoodJoins(catalog, base, baseKey, start.joins) && Frontier(catalog, Parentward, start)
    && (forall c {:trigger c in start.visited} {:trigger IsForeignKey(catalog, c)} ::
          c in start.visited <==> IsForeignKey(catalog, c) && c.references in blocked)
    && (forall c {:trigger IsForeignKey(catalog, c)} :: IsForeignKey(catalog, c) && c.references in blocked ==>
       c.table in blocked)
    && (start.joins.Keys == blocked || (blocked == {} && start.joins.Keys == {base}))
    && (forall j, k {:trigger Stored(start.joins, j), j.tableIDs[k]} ::
       Stored(start.joins, j) && 0 <= k < |j.tableIDs| - 1 ==> j.tableIDs[k] in blocked)
    && (forall j {:trigger Stored(start.joins, j)} :: Stored(start.joins, j) && |j.fkeys| > 1 ==>
       LastKey(j).table == End(j) && LastKey(j).references in blocked)
  }

  /** A chain of the first phase ends in its table along that table's only key into the phase. */
  ghost predicate SeedsClosed(catalog: Catalog, blocked: set<TableID>, joins: Joins) {
    forall id, j, c ::
        id in joins && j in joins[id] && IsForeignKey(catalog, c) && c.table == id && c.references in blocked ==>
      CameAlong(j, c)
  }

  // ----- what the parent-ward loop keeps -----

  /** A chain not there at the start continues a stored chain along a key visited since. */
  predicate Grown(start: Search, st: Search, j: Join) {
    || Stored(start.joins, j)
    || (&& 1 < |j.tableIDs| == |j.fkeys| && Stored(st.joins, Prefix(j))
        && LastKey(j) in st.visited && LastKey(j) !in start.visited
        && LastKey(j).table == End(Prefix(j)) && LastKey(j).references == End(j))
  }

  ghost predicate LoopInv(catalog: Catalog, base: TableID, baseKey: Constraint, blocked: set<TableID>,
                          start: Search, st: Search)
  {
    && GoodJoins(catalog, base, baseKey, st.joins) && Frontier(catalog, Parentward, st)
    && start.visited <= st.visited
    && (forall j {:trigger Stored(st.joins, j)} {:trigger Stored(start.joins, j)} :: Stored(start.joins, j) ==>
       Stored(st.joins, j))
    && (forall id :: id in blocked ==> id in st.joins && st.joins[id] == JoinsOf(start.joins, id))
    && (forall j {:trigger Grown(start, st, j)} :: Stored(st.joins, j) ==> Grown(start, st, j))
    && (forall id {:trigger Dependency(catalog, blocked, start.joins.Keys, id)} ::
          id in st.joins ==> Dependency(catalog, blocked, start.joins.Keys, id))
  }

  lemma StartInv(catalog: Catalog, base: TableID, baseKey: Constraint, blocked: set<TableID>, start: Search)
    requires ParentPhase(catalog, base, baseKey, blocked, start)
    ensures LoopInv(catalog, base, baseKey, blocked, start, start)
  {
    SourcesAreDependencies(catalog, blocked, start.joins.Keys);
    forall j | Stored(start.joins, j) ensures Grown(start, start, j) {
    }
  }

  lemma SourcesAreDependencies(catalog: Catalog, blocked: set<TableID>, sources: set<TableID>)
    ensures forall id :: id in sources ==> Dependency(catalog, blocked, sources, id)
  {
    forall id | id in sources ensures Dependency(catalog, blocked, sources, id) {
      ReachesSelf(catalog, Parentward, blocked, id);
    }
  }

  lemma DependencyStep(catalog: Catalog, blocked: set<TableID>, sources: set<TableID>, c: Constraint)
    requires IsForeignKey(catalog, c) && Dependency(catalog, blocked, sources, c.table) && c.references !in blocked
    ensures Dependency(catalog, blocked, sources, c.references)
  {
    var source :| source in sources && Reaches(catalog, Parentward, blocked, source, c.table);
    ReachesStep(catalog, Parentward, blocked, source, c);
  }

  /** The key on top of the stack, when it is going to be followed. */
  ghost predicate Follows(catalog: Catalog, st: Search, c: Constraint) {
    && st.toVisit != [] && c == st.toVisit[|st.toVisit| - 1]
    && c.constraintType == ForeignKey && c !in st.visited
  }

  lemma FollowedKey(catalog: Catalog, base: TableID, baseKey: Constraint, blocked: set<TableID>,
                    start: Search, st: Search, c: Constraint)
    requires ParentPhase(catalog, base, baseKey, blocked, start)
    requires LoopInv(catalog, base, baseKey, blocked, start, st) && Follows(catalog, st, c)
    ensures IsForeignKey(catalog, c) && c.table in st.joins && c.references !in blocked && c !in start.visited
    ensures Dependency(catalog, blocked, start.joins.Keys, c.table)
    ensures Dependency(catalog, blocked, start.joins.Keys, c.references)
    ensures c.table != c.references ==> st.joins[c.table] == Step(catalog, Parentward, st).joins[c.table]
  {
    assert c in st.toVisit;
    DependencyStep(catalog, blocked, start.joins.Keys, c);
  }

  lemma StepInv(catalog: Catalog, base: TableID, baseKey: Constraint, blocked: set<TableID>, start: Search, st: Search)
    requires ParentPhase(catalog, base, baseKey, blocked, start) && st.toVisit != []
    requires LoopInv(catalog, base, baseKey, blocked, start, st)
    ensures LoopInv(catalog, base, baseKey, blocked, start, Step(catalog, Parentward, st))
  {
    var next := Step(catalog, Parentward, st);
    StepGoodJoins(catalog, base, baseKey, Parentward, st);
    StepFrontier(catalog, Parentward, st);
    var c := st.toVisit[|st.toVisit| - 1];
    if Follows(catalog, st, c) {
      FollowedKey(catalog, base, baseKey, blocked, start, st, c);
      forall j | Stored(next.joins, j) ensures Grown(start, next, j) {
        if Stored(st.joins, j) {
          assert Grown(start, st, j);
        } else {
          GrownChains(catalog, base, baseKey, st.joins, Parentward, c, j);
        }
      }
    } else {
      forall j | Stored(next.joins, j) ensures Grown(start, next, j) {
        assert Grown(start, st, j);
      }
    }
  }

  // ----- no chain is missed on a tree -----

  /** Follows the chain to its end from any of its tables that is not blocked. */
  lemma {:induction false} WalkToEnd(catalog: Catalog, base: TableID, baseKey: Constraint, blocked: set<TableID>,
                    start: Search, st: Search, j: Join, k: nat)
    requires ParentPhase(catalog, base, baseKey, blocked, start)
    requires LoopInv(catalog, base, baseKey, blocked, start, st)
    requires Stored(st.joins, j) && k < |j.tableIDs| && j.tableIDs[k] !in blocked
    ensures Reaches(catalog, Parentward, blocked, j.tableIDs[k], End(j))
    decreases |j.tableIDs|
  {
    if k == |j.tableIDs| - 1 {
      ReachesSelf(catalog, Parentward, blocked, End(j));
    } else {
      assert Grown(start, st, j);
      WalkToEnd(catalog, base, baseKey, blocked, start, st, Prefix(j), k);
      ReachesStep(catalog, Parentward, blocked, j.tableIDs[k], LastKey(j));
    }
  }

  /** On an acyclic graph no key closes a cycle. */
  lemma NoCycleThrough(catalog: Catalog, blocked: set<TableID>, sources: set<TableID>, c: Constraint)
    requires Acyclic(catalog, blocked, sources) && Dependency(catalog, blocked, sources, c.references)
    requires IsForeignKey(catalog, c) && c.references !in blocked
    ensures !Reaches(catalog, Parentward, blocked, c.references, c.table)
  {
    forall w | Walk(catalog, Parentward, blocked, c.references, w, c.table)
      ensures exists v :: v != [] && Walk(catalog, Parentward, blocked, c.references, v, c.references)
    {
      assert w + [c] != [];
      WalkSnoc(catalog, Parentward, blocked, c.references, w, c);
    }
  }

  /** On an acyclic graph no key leads back into a chain. */
  lemma NoDuplicate(catalog: Catalog, base: TableID, baseKey: Constraint, blocked: set<TableID>,
                    start: Search, st: Search, j: Join, c: Constraint)
    requires ParentPhase(catalog, base, baseKey, blocked, start)
    requires LoopInv(catalog, base, baseKey, blocked, start, st)
    requires Acyclic(catalog, blocked, start.joins.Keys)
    requires Stored(st.joins, j) && IsForeignKey(catalog, c) && c.table == End(j) && c.references !in blocked
    ensures c.references !in j.tableIDs
  {
    if c.references in j.tableIDs {
      var k :| 0 <= k < |j.tableIDs| && j.tableIDs[k] == c.references;
      WalkToEnd(catalog, base, baseKey, blocked, start, st, j, k);
      DependencyStep(catalog, blocked, start.joins.Keys, c);
      NoCycleThrough(catalog, blocked, start.joins.Keys, c);
    }
  }

  /** On an acyclic graph no followed key leads to a table the loop started with. */
  lemma NoEntryIntoSources(catalog: Catalog, blocked: set<TableID>, sources: set<TableID>, base: TableID, c: Constraint)
    requires sources == blocked || (blocked == {} && sources == {base})
    requires Acyclic(catalog, blocked, sources)
    requires IsForeignKey(catalog, c) && Dependency(catalog, blocked, sources, c.table) && c.references !in blocked
    ensures c.references !in sources
  {
    if c.references in sources {
      assert sources == {base};
      DependencyStep(catalog, blocked, sources, c);
      NoCycleThrough(catalog, blocked, sources, c);
    }
  }

  lemma NoSelfReference(catalog: Catalog, blocked: set<TableID>, sources: set<TableID>, c: Constraint)
    requires Acyclic(catalog, blocked, sources)
    requires IsForeignKey(catalog, c) && Dependency(catalog, blocked, sources, c.table) && c.references !in blocked
    ensures c.table != c.references
  {
    if c.table == c.references {
      ReachesSelf(catalog, Parentward, blocked, c.table);
      NoCycleThrough(catalog, blocked, sources, c);
    }
  }

  /** Every key followed so far has been followed by all the chains of its table. */
  ghost predicate AllContinued(start: Search, st: Search) {
    forall j, c {:trigger Continued(st.joins, j, c)} ::
      c in st.visited && c !in start.visited && Stored(st.joins, j) && c.table == End(j) ==> Continued(st.joins, j, c)
  }

  /** A key is followed only from a table of the start or one entered before. */
  ghost predicate AllEntered(start: Search, st: Search) {
    forall c {:trigger Entered(start, st, c.table)} ::
      c in st.visited && c !in start.visited && c.table !in start.joins ==> Entered(start, st, c.table)
  }

  ghost predicate Entered(start: Search, st: Search, id: TableID) {
    exists e :: EnteredBy(start, st, id, e)
  }

  predicate EnteredBy(start: Search, st: Search, id: TableID, e: Constraint) {
    e in st.visited && e !in start.visited && e.references == id
  }

  lemma FollowStores(catalog: Catalog, st: Search, c: Constraint, j: Join)
    requires Follows(catalog, st, c) && j in JoinsOf(st.joins, c.table) && c.references !in j.tableIDs
    ensures Continued(Step(catalog, Parentward, st).joins, j, c)
  {
    ExtendMember(st.joins[c.table], c, c.references, Snoc(j, c, c.references));
  }

  lemma FollowKeeps(catalog: Catalog, st: Search, c: Constraint)
    requires Follows(catalog, st, c)
    ensures forall x :: Stored(st.joins, x) ==> Stored(Step(catalog, Parentward, st).joins, x)
    ensures forall x :: Stored(Step(catalog, Parentward, st).joins, x) && End(x) != c.references ==> Stored(st.joins, x)
    ensures Step(catalog, Parentward, st).visited == st.visited + {c}
  {
  }

  lemma StepContinued(catalog: Catalog, base: TableID, baseKey: Constraint, blocked: set<TableID>,
                      start: Search, st: Search, c: Constraint)
    requires ParentPhase(catalog, base, baseKey, blocked, start)
    requires LoopInv(catalog, base, baseKey, blocked, start, st)
    requires AllContinued(start, st) && AllEntered(start, st)
    requires Acyclic(catalog, blocked, start.joins.Keys) && SingleEntry(catalog, blocked, start.joins.Keys)
    requires Follows(catalog, st, c)
    ensures AllContinued(start, Step(catalog, Parentward, st))
  {
    var next := Step(catalog, Parentward, st);
    FollowedKey(catalog, base, baseKey, blocked, start, st, c);
    FollowKeeps(catalog, st, c);
    forall j, e | e in next.visited && e !in start.visited && Stored(next.joins, j) && e.table == End(j)
      ensures Continued(next.joins, j, e)
    {
      if e == c {
        NoSelfReference(catalog, blocked, start.joins.Keys, c);
        NoDuplicate(catalog, base, baseKey, blocked, start, st, j, c);
        FollowStores(catalog, st, c, j);
      } else {
        FollowedElsewhere(catalog, base, baseKey, blocked, start, st, c, e);
        assert Continued(st.joins, j, e);
      }
    }
  }

  lemma StepEntered(catalog: Catalog, base: TableID, baseKey: Constraint, blocked: set<TableID>,
                    start: Search, st: Search, c: Constraint)
    requires ParentPhase(catalog, base, baseKey, blocked, start)
    requires LoopInv(catalog, base, baseKey, blocked, start, st) && AllEntered(start, st)
    requires Follows(catalog, st, c)
    ensures AllEntered(start, Step(catalog, Parentward, st))
  {
    var next := Step(catalog, Parentward, st);
    FollowedKey(catalog, base, baseKey, blocked, start, st, c);
    FollowKeeps(catalog, st, c);
    forall e | e in next.visited && e !in start.visited && e.table !in start.joins
      ensures Entered(start, next, e.table)
    {
      if e == c {
        var j := st.joins[c.table][0];
        assert j in st.joins[c.table];
        assert Grown(start, st, j);
        assert EnteredBy(start, next, e.table, LastKey(j));
      } else {
        assert Entered(start, st, e.table);
        var f :| EnteredBy(start, st, e.table, f);
        assert EnteredBy(start, next, e.table, f);
      }
    }
  }

  lemma OnlyEntry(catalog: Catalog, blocked: set<TableID>, sources: set<TableID>, c1: Constraint, c2: Constraint,
                  d: Constraint)
    requires SingleEntry(catalog, blocked, sources)
    requires IsForeignKey(catalog, c1) && IsForeignKey(catalog, c2) && IsForeignKey(catalog, d)
    requires Dependency(catalog, blocked, sources, c1.table) && Dependency(catalog, blocked, sources, c2.table)
    requires c1.references == c2.references == d.table && d.table !in blocked && d.references !in blocked
    ensures c1 == c2
  {
  }

  /** With single entries, the table entered by c has had none of its own keys followed. */
  lemma FollowedElsewhere(catalog: Catalog, base: TableID, baseKey: Constraint, blocked: set<TableID>,
                          start: Search, st: Search, c: Constraint, e: Constraint)
    requires ParentPhase(catalog, base, baseKey, blocked, start)
    requires LoopInv(catalog, base, baseKey, blocked, start, st) && AllEntered(start, st)
    requires Acyclic(catalog, blocked, start.joins.Keys) && SingleEntry(catalog, blocked, start.joins.Keys)
    requires Follows(catalog, st, c) && e in st.visited && e !in start.visited
    ensures e.table != c.references
  {
    if e.table == c.references {
      FollowedKey(catalog, base, baseKey, blocked, start, st, c);
      NoEntryIntoSources(catalog, blocked, start.joins.Keys, base, c);
      assert Entered(start, st, e.table);
      var f :| EnteredBy(start, st, e.table, f);
      OnlyEntry(catalog, blocked, start.joins.Keys, c, f, e);
    }
  }

  lemma StepExpanded(catalog: Catalog, base: TableID, baseKey: Constraint, blocked: set<TableID>, start: Search,
                     st: Search)
    requires ParentPhase(catalog, base, baseKey, blocked, start) && st.toVisit != []
    requires LoopInv(catalog, base, baseKey, blocked, start, st)
    requires AllContinued(start, st) && AllEntered(start, st)
    requires Acyclic(catalog, blocked, start.joins.Keys) && SingleEntry(catalog, blocked, start.joins.Keys)
    ensures AllContinued(start, Step(catalog, Parentward, st)) && AllEntered(start, Step(catalog, Parentward, st))
  {
    var c := st.toVisit[|st.toVisit| - 1];
    var next := Step(catalog, Parentward, st);
    if Follows(catalog, st, c) {
      StepContinued(catalog, base, baseKey, blocked, start, st, c);
      StepEntered(catalog, base, baseKey, blocked, start, st, c);
    } else {
      forall e | e in next.visited && e !in start.visited && e.table !in start.joins
        ensures Entered(start, next, e.table)
      {
        assert Entered(start, st, e.table);
        var f :| EnteredBy(start, st, e.table, f);
        assert EnteredBy(start, next, e.table, f);
      }
    }
  }

  lemma {:induction false} RunExpanded(catalog: Catalog, base: TableID, baseKey: Constraint, blocked: set<TableID>,
                                       start: Search, st: Search)
    requires ParentPhase(catalog, base, baseKey, blocked, start)
    requires LoopInv(catalog, base, baseKey, blocked, start, st)
    requires AllContinued(start, st) && AllEntered(start, st)
    requires Acyclic(catalog, blocked, start.joins.Keys) && SingleEntry(catalog, blocked, start.joins.Keys)
    ensures LoopInv(catalog, base, baseKey, blocked, start, Run(catalog, Parentward, st))
    ensures AllContinued(start, Run(catalog, Parentward, st))
    decreases AllConstraints(catalog) - st.visited, |st.toVisit|
  {
    if st.toVisit == [] {
    } else {
      StepQueued(catalog, Parentward, st);
      StepInv(catalog, base, baseKey, blocked, start, st);
      StepExpanded(catalog, base, baseKey, blocked, start, st);
      RunExpanded(catalog, base, baseKey, blocked, start, Step(catalog, Parentward, st));
    }
  }

  lemma TreesAreComplete(catalog: Catalog, base: TableID, baseKey: Constraint, blocked: set<TableID>, start: Search)
    requires ParentPhase(catalog, base, baseKey, blocked, start)
    requires Acyclic(catalog, blocked, start.joins.Keys) && SingleEntry(catalog, blocked, start.joins.Keys)
    requires SeedsClosed(catalog, blocked, start.joins)
    ensures Complete(catalog, Run(catalog, Parentward, start).joins)
  {
    StartInv(catalog, base, baseKey, blocked, start);
    RunExpanded(catalog, base, baseKey, blocked, start, start);
    var final := Run(catalog, Parentward, start);
    forall j, c | Stored(final.joins, j) && IsForeignKey(catalog, c) && c.table == End(j)
      ensures CameAlong(j, c) || Continued(final.joins, j, c)
    {
      assert c in final.visited;
      if c in start.visited {
        assert final.joins[End(j)] == JoinsOf(start.joins, End(j));
      }
    }
  }
}
