/** The converse: a search that misses no chain has walked a graph without cycles in
    which no table with foreign keys of its own is entered twice. */
module SearchNecessity {
  import opened Common
  import opened ForeignKeys
  import opened JoinSearch
  import opened SearchCompleteness

  /** The chain continued along a walk. */
  function Append(j: Join, w: seq<Constraint>): Join {
    if w == [] then j else Snoc(Append(j, w[..|w| - 1]), w[|w| - 1], w[|w| - 1].references)
  }

  lemma {:induction false} AppendShape(j: Join, w: seq<Constraint>)
    ensures |Append(j, w).tableIDs| == |j.tableIDs| + |w|
    ensures j.tableIDs <= Append(j, w).tableIDs
    ensures w != [] ==> End(Append(j, w)) == w[|w| - 1].references
  {
    if w == [] {
    } else {
      AppendShape(j, w[..|w| - 1]);
    }
  }

  /** A chain never ends with the key that leads out of its last table and out of the blocked ones. */
  lemma NotArrivedBy(catalog: Catalog, base: TableID, baseKey: Constraint, blocked: set<TableID>,
                     start: Search, st: Search, j: Join, c: Constraint)
    requires ParentPhase(catalog, base, baseKey, blocked, start)
    requires LoopInv(catalog, base, baseKey, blocked, start, st)
    requires Stored(st.joins, j) && IsForeignKey(catalog, c) && c.table == End(j) && c.references !in blocked
    ensures !CameAlong(j, c)
  {
    assert Grown(start, st, j);
    assert SimplePath(catalog, base, baseKey, j) by { assert j in st.joins[End(j)]; }
    if |j.tableIDs| > 1 {
      LastTwoDiffer(catalog, base, baseKey, j);
    }
  }

  lemma {:induction false} WalksAreStored(catalog: Catalog, base: TableID, baseKey: Constraint, blocked: set<TableID>,
                         start: Search, st: Search, j: Join, w: seq<Constraint>, id: TableID)
    requires ParentPhase(catalog, base, baseKey, blocked, start)
    requires LoopInv(catalog, base, baseKey, blocked, start, st) && Complete(catalog, st.joins)
    requires Stored(st.joins, j) && Walk(catalog, Parentward, blocked, End(j), w, id)
    ensures Stored(st.joins, Append(j, w)) && End(Append(j, w)) == id
  {
    if w == [] {
    } else {
      var c := w[|w| - 1];
      WalksAreStored(catalog, base, baseKey, blocked, start, st, j, w[..|w| - 1], c.table);
      NotArrivedBy(catalog, base, baseKey, blocked, start, st, Append(j, w[..|w| - 1]), c);
      assert Continued(st.joins, Append(j, w[..|w| - 1]), c);
    }
  }

  /** Every dependency of the start has a stored chain. */
  lemma DependencyStored(catalog: Catalog, base: TableID, baseKey: Constraint, blocked: set<TableID>,
                         start: Search, st: Search, id: TableID) returns (x: Join)
    requires ParentPhase(catalog, base, baseKey, blocked, start)
    requires LoopInv(catalog, base, baseKey, blocked, start, st) && Complete(catalog, st.joins)
    requires Dependency(catalog, blocked, start.joins.Keys, id)
    ensures Stored(st.joins, x) && End(x) == id
  {
    var source :| source in start.joins.Keys && Reaches(catalog, Parentward, blocked, source, id);
    var w :| Walk(catalog, Parentward, blocked, source, w, id);
    var j := start.joins[source][0];
    assert j in start.joins[source];
    WalksAreStored(catalog, base, baseKey, blocked, start, st, j, w, id);
    x := Append(j, w);
  }

  lemma NoWalkBack(catalog: Catalog, base: TableID, baseKey: Constraint, blocked: set<TableID>,
                   start: Search, st: Search, id: TableID, w: seq<Constraint>)
    requires ParentPhase(catalog, base, baseKey, blocked, start)
    requires LoopInv(catalog, base, baseKey, blocked, start, st) && Complete(catalog, st.joins)
    requires Dependency(catalog, blocked, start.joins.Keys, id) && w != []
    ensures !Walk(catalog, Parentward, blocked, id, w, id)
  {
    if Walk(catalog, Parentward, blocked, id, w, id) {
      var x := DependencyStored(catalog, base, baseKey, blocked, start, st, id);
      AppendShape(x, w);
      assert !Differ(Append(x, w).tableIDs, |x.tableIDs| - 1, |Append(x, w).tableIDs| - 1);
      WalksAreStored(catalog, base, baseKey, blocked, start, st, x, w, id);
    }
  }

  lemma CompleteIsAcyclic(catalog: Catalog, base: TableID, baseKey: Constraint, blocked: set<TableID>, start: Search,
                          st: Search)
    requires ParentPhase(catalog, base, baseKey, blocked, start)
    requires LoopInv(catalog, base, baseKey, blocked, start, st) && Complete(catalog, st.joins)
    ensures Acyclic(catalog, blocked, start.joins.Keys)
  {
    forall id, w | Dependency(catalog, blocked, start.joins.Keys, id) && w != []
      ensures !Walk(catalog, Parentward, blocked, id, w, id)
    {
      NoWalkBack(catalog, base, baseKey, blocked, start, st, id, w);
    }
  }

  // ----- on an acyclic graph, a key is followed before its table is entered again -----

  /** A key still to be followed out of a table entered since the start. */
  predicate Pending(catalog: Catalog, start: Search, st: Search, d: Constraint) {
    IsForeignKey(catalog, d) && d !in st.visited && d.table in st.joins && d.table !in start.joins
  }

  /** The key waits at position i, and all above it belongs to dependencies of its table. */
  ghost predicate Waits(catalog: Catalog, blocked: set<TableID>, st: Search, d: Constraint, i: nat) {
    && i < |st.toVisit| && st.toVisit[i] == d
    && (forall k {:trigger st.toVisit[k]} :: i <= k < |st.toVisit| && st.toVisit[k].constraintType == ForeignKey ==>
          Reaches(catalog, Parentward, blocked, d.table, st.toVisit[k].table))
  }

  ghost predicate Waiting(catalog: Catalog, blocked: set<TableID>, st: Search, d: Constraint) {
    exists i :: Waits(catalog, blocked, st, d, i)
  }

  /** The key before the last. */
  function KeyBefore(j: Join): Constraint
    requires |j.fkeys| > 1
  {
    j.fkeys[|j.fkeys| - 2]
  }

  /** The two chains, if they end with the same key from a table entered since the start,
      arrived at that table the same way. */
  predicate SameArrival(start: Search, x: Join, y: Join) {
    |x.fkeys| > 1 && |y.fkeys| > 1 && LastKey(x) == LastKey(y) && LastKey(x).table !in start.joins ==>
      KeyBefore(x) == KeyBefore(y)
  }

  predicate SameLast(x: Join, y: Join) {
    x.fkeys != [] && y.fkeys != [] && LastKey(x) == LastKey(y)
  }

  ghost predicate Ordered(catalog: Catalog, blocked: set<TableID>, start: Search, st: Search) {
    && (forall d {:trigger Waiting(catalog, blocked, st, d)} :: Pending(catalog, start, st, d) ==>
          Waiting(catalog, blocked, st, d))
    && (forall d, x, y {:trigger Pending(catalog, start, st, d), SameLast(x, y)} ::
          Pending(catalog, start, st, d) && x in st.joins[d.table] && y in st.joins[d.table] ==> SameLast(x, y))
    && (forall x, y {:trigger SameArrival(start, x, y)} :: Stored(st.joins, x) && Stored(st.joins, y) ==>
          SameArrival(start, x, y))
  }

  /** No key out of the table that c enters is pending already: c would close a cycle. */
  lemma EntersAfresh(catalog: Catalog, base: TableID, baseKey: Constraint, blocked: set<TableID>,
                     start: Search, st: Search, c: Constraint, d: Constraint)
    requires ParentPhase(catalog, base, baseKey, blocked, start)
    requires LoopInv(catalog, base, baseKey, blocked, start, st)
    requires Acyclic(catalog, blocked, start.joins.Keys) && Ordered(catalog, blocked, start, st)
    requires Follows(catalog, st, c) && Pending(catalog, start, st, d)
    ensures d.table != c.references
  {
    if d.table == c.references {
      assert Waiting(catalog, blocked, st, d);
      var i: nat :| Waits(catalog, blocked, st, d, i);
      assert st.toVisit[|st.toVisit| - 1] == c;
      FollowedKey(catalog, base, baseKey, blocked, start, st, c);
      NoCycleThrough(catalog, blocked, start.joins.Keys, c);
    }
  }

  lemma StillWaits(catalog: Catalog, blocked: set<TableID>, st: Search, c: Constraint, d: Constraint)
    requires Closed(catalog) && IsForeignKey(catalog, c) && c.references !in blocked
    requires Follows(catalog, st, c) && d != c && Waiting(catalog, blocked, st, d)
    ensures Waiting(catalog, blocked, Step(catalog, Parentward, st), d)
  {
    var i: nat :| Waits(catalog, blocked, st, d, i);
    assert st.toVisit[|st.toVisit| - 1] == c;
    ReachesStep(catalog, Parentward, blocked, d.table, c);
    var next := Step(catalog, Parentward, st);
    var rest := st.toVisit[..|st.toVisit| - 1];
    forall k | i <= k < |next.toVisit| && next.toVisit[k].constraintType == ForeignKey
      ensures Reaches(catalog, Parentward, blocked, d.table, next.toVisit[k].table)
    {
      if k < |rest| {
        assert next.toVisit[k] == st.toVisit[k];
      } else {
        assert next.toVisit[k] in ConstraintsOf(catalog, c.references);
        OutgoingMember(catalog, Parentward, c.references, next.toVisit[k]);
      }
    }
    assert Waits(catalog, blocked, next, d, i);
  }

  lemma StartsWaiting(catalog: Catalog, blocked: set<TableID>, st: Search, c: Constraint, d: Constraint)
    requires Closed(catalog) && Follows(catalog, st, c) && IsForeignKey(catalog, d) && d.table == c.references
    ensures Waiting(catalog, blocked, Step(catalog, Parentward, st), d)
  {
    var next := Step(catalog, Parentward, st);
    var rest := st.toVisit[..|st.toVisit| - 1];
    var added := ConstraintsOf(catalog, c.references);
    OutgoingMember(catalog, Parentward, c.references, d);
    var k :| 0 <= k < |added| && added[k] == d;
    assert next.toVisit[|rest| + k] == d;
    ReachesSelf(catalog, Parentward, blocked, d.table);
    forall m | |rest| + k <= m < |next.toVisit| && next.toVisit[m].constraintType == ForeignKey
      ensures Reaches(catalog, Parentward, blocked, d.table, next.toVisit[m].table)
    {
      assert next.toVisit[m] in added;
      OutgoingMember(catalog, Parentward, c.references, next.toVisit[m]);
    }
    assert Waits(catalog, blocked, next, d, |rest| + k);
  }

  lemma StepWaiting(catalog: Catalog, base: TableID, baseKey: Constraint, blocked: set<TableID>,
                    start: Search, st: Search, c: Constraint, d: Constraint)
    requires ParentPhase(catalog, base, baseKey, blocked, start)
    requires LoopInv(catalog, base, baseKey, blocked, start, st)
    requires Ordered(catalog, blocked, start, st)
    requires Follows(catalog, st, c) && Pending(catalog, start, Step(catalog, Parentward, st), d)
    ensures Waiting(catalog, blocked, Step(catalog, Parentward, st), d)
  {
    FollowedKey(catalog, base, baseKey, blocked, start, st, c);
    if Pending(catalog, start, st, d) {
      StillWaits(catalog, blocked, st, c, d);
    } else {
      StartsWaiting(catalog, blocked, st, c, d);
    }
  }

  lemma StepSameLast(catalog: Catalog, base: TableID, baseKey: Constraint, blocked: set<TableID>,
                     start: Search, st: Search, c: Constraint, d: Constraint, x: Join, y: Join)
    requires ParentPhase(catalog, base, baseKey, blocked, start)
    requires LoopInv(catalog, base, baseKey, blocked, start, st)
    requires Acyclic(catalog, blocked, start.joins.Keys) && Ordered(catalog, blocked, start, st)
    requires Follows(catalog, st, c) && Pending(catalog, start, Step(catalog, Parentward, st), d)
    requires var js := Step(catalog, Parentward, st).joins[d.table]; x in js && y in js
    ensures SameLast(x, y)
  {
    FollowedKey(catalog, base, baseKey, blocked, start, st, c);
    if Pending(catalog, start, st, d) {
      EntersAfresh(catalog, base, baseKey, blocked, start, st, c, d);
    } else {
      GrownChains(catalog, base, baseKey, st.joins, Parentward, c, x);
      GrownChains(catalog, base, baseKey, st.joins, Parentward, c, y);
    }
  }

  /** A key about to be followed is the last of no chain yet. */
  lemma NotYetLast(catalog: Catalog, base: TableID, baseKey: Constraint, blocked: set<TableID>,
                   start: Search, st: Search, c: Constraint, x: Join)
    requires ParentPhase(catalog, base, baseKey, blocked, start)
    requires LoopInv(catalog, base, baseKey, blocked, start, st)
    requires Follows(catalog, st, c) && Stored(st.joins, x) && |x.fkeys| > 1
    ensures LastKey(x) != c
  {
    FollowedKey(catalog, base, baseKey, blocked, start, st, c);
    assert Grown(start, st, x);
  }

  /** A chain the round adds ends with c and continues a chain stored before. */
  lemma NewArrival(catalog: Catalog, base: TableID, baseKey: Constraint, blocked: set<TableID>,
                   start: Search, st: Search, c: Constraint, x: Join) returns (j: Join)
    requires ParentPhase(catalog, base, baseKey, blocked, start)
    requires LoopInv(catalog, base, baseKey, blocked, start, st) && Follows(catalog, st, c)
    requires Stored(Step(catalog, Parentward, st).joins, x) && !Stored(st.joins, x)
    ensures c.table in st.joins && j in st.joins[c.table] && j.fkeys != []
    ensures |x.fkeys| > 1 && LastKey(x) == c && KeyBefore(x) == LastKey(j)
  {
    FollowedKey(catalog, base, baseKey, blocked, start, st, c);
    GrownChains(catalog, base, baseKey, st.joins, Parentward, c, x);
    j := Prefix(x);
    assert SimplePath(catalog, base, baseKey, j);
  }

  lemma StepSameArrival(catalog: Catalog, base: TableID, baseKey: Constraint, blocked: set<TableID>,
                        start: Search, st: Search, c: Constraint, x: Join, y: Join)
    requires ParentPhase(catalog, base, baseKey, blocked, start)
    requires LoopInv(catalog, base, baseKey, blocked, start, st)
    requires Ordered(catalog, blocked, start, st) && Follows(catalog, st, c)
    requires var joins := Step(catalog, Parentward, st).joins; Stored(joins, x) && Stored(joins, y)
    requires |x.fkeys| > 1 && |y.fkeys| > 1 && LastKey(x) == LastKey(y) && LastKey(x).table !in start.joins
    ensures KeyBefore(x) == KeyBefore(y)
  {
    if Stored(st.joins, x) && Stored(st.joins, y) {
      assert SameArrival(start, x, y);
    } else if Stored(st.joins, x) {
      var _ := NewArrival(catalog, base, baseKey, blocked, start, st, c, y);
      NotYetLast(catalog, base, baseKey, blocked, start, st, c, x);
    } else if Stored(st.joins, y) {
      var _ := NewArrival(catalog, base, baseKey, blocked, start, st, c, x);
      NotYetLast(catalog, base, baseKey, blocked, start, st, c, y);
    } else {
      var i := NewArrival(catalog, base, baseKey, blocked, start, st, c, x);
      var j := NewArrival(catalog, base, baseKey, blocked, start, st, c, y);
      FollowedKey(catalog, base, baseKey, blocked, start, st, c);
      assert Pending(catalog, start, st, c);
      assert SameLast(i, j);
    }
  }

  lemma StepOrdered(catalog: Catalog, base: TableID, baseKey: Constraint, blocked: set<TableID>, start: Search,
                    st: Search)
    requires ParentPhase(catalog, base, baseKey, blocked, start) && st.toVisit != []
    requires LoopInv(catalog, base, baseKey, blocked, start, st)
    requires Acyclic(catalog, blocked, start.joins.Keys) && Ordered(catalog, blocked, start, st)
    ensures Ordered(catalog, blocked, start, Step(catalog, Parentward, st))
  {
    var next := Step(catalog, Parentward, st);
    var c := st.toVisit[|st.toVisit| - 1];
    if Follows(catalog, st, c) {
      forall d | Pending(catalog, start, next, d) ensures Waiting(catalog, blocked, next, d) {
        StepWaiting(catalog, base, baseKey, blocked, start, st, c, d);
      }
      forall d, x, y | Pending(catalog, start, next, d) && x in next.joins[d.table] && y in next.joins[d.table]
        ensures SameLast(x, y)
      {
        StepSameLast(catalog, base, baseKey, blocked, start, st, c, d, x, y);
      }
      forall x, y | Stored(next.joins, x) && Stored(next.joins, y) ensures SameArrival(start, x, y) {
        if |x.fkeys| > 1 && |y.fkeys| > 1 && LastKey(x) == LastKey(y) && LastKey(x).table !in start.joins {
          StepSameArrival(catalog, base, baseKey, blocked, start, st, c, x, y);
        }
      }
    } else {
      forall d | Pending(catalog, start, next, d) ensures Waiting(catalog, blocked, next, d) {
        assert Pending(catalog, start, st, d);
        assert Waiting(catalog, blocked, st, d);
        var i: nat :| Waits(catalog, blocked, st, d, i);
        assert Waits(catalog, blocked, next, d, i);
      }
      forall d, x, y | Pending(catalog, start, next, d) && x in next.joins[d.table] && y in next.joins[d.table]
        ensures SameLast(x, y)
      {
        assert Pending(catalog, start, st, d);
      }
    }
  }

  lemma {:induction false} RunOrdered(catalog: Catalog, base: TableID, baseKey: Constraint, blocked: set<TableID>,
                                      start: Search, st: Search)
    requires ParentPhase(catalog, base, baseKey, blocked, start)
    requires LoopInv(catalog, base, baseKey, blocked, start, st)
    requires Acyclic(catalog, blocked, start.joins.Keys) && Ordered(catalog, blocked, start, st)
    ensures Ordered(catalog, blocked, start, Run(catalog, Parentward, st))
    decreases AllConstraints(catalog) - st.visited, |st.toVisit|
  {
    if st.toVisit == [] {
    } else {
      StepQueued(catalog, Parentward, st);
      StepInv(catalog, base, baseKey, blocked, start, st);
      StepOrdered(catalog, base, baseKey, blocked, start, st);
      RunOrdered(catalog, base, baseKey, blocked, start, Step(catalog, Parentward, st));
    }
  }

  lemma {:induction false} RunInv(catalog: Catalog, base: TableID, baseKey: Constraint, blocked: set<TableID>,
                                  start: Search, st: Search)
    requires ParentPhase(catalog, base, baseKey, blocked, start)
    requires LoopInv(catalog, base, baseKey, blocked, start, st)
    ensures LoopInv(catalog, base, baseKey, blocked, start, Run(catalog, Parentward, st))
    decreases AllConstraints(catalog) - st.visited, |st.toVisit|
  {
    if st.toVisit == [] {
    } else {
      StepQueued(catalog, Parentward, st);
      StepInv(catalog, base, baseKey, blocked, start, st);
      RunInv(catalog, base, baseKey, blocked, start, Step(catalog, Parentward, st));
    }
  }

  lemma StartOrdered(catalog: Catalog, base: TableID, baseKey: Constraint, blocked: set<TableID>, start: Search)
    requires ParentPhase(catalog, base, baseKey, blocked, start)
    ensures Ordered(catalog, blocked, start, start)
  {
    forall x, y | Stored(start.joins, x) && Stored(start.joins, y) ensures SameArrival(start, x, y) {
      if |x.fkeys| > 1 {
        assert LastKey(x).table == End(x);
      }
    }
  }

  /** Two different keys into a table with a key d of its own: both chains would have
      been continued along d, which is followed only once. */
  lemma EntriesAgree(catalog: Catalog, base: TableID, baseKey: Constraint, blocked: set<TableID>,
                     start: Search, st: Search, c1: Constraint, c2: Constraint, d: Constraint)
    requires ParentPhase(catalog, base, baseKey, blocked, start)
    requires LoopInv(catalog, base, baseKey, blocked, start, st) && Complete(catalog, st.joins)
    requires Acyclic(catalog, blocked, start.joins.Keys) && Ordered(catalog, blocked, start, st)
    requires IsForeignKey(catalog, c1) && IsForeignKey(catalog, c2) && IsForeignKey(catalog, d)
    requires Dependency(catalog, blocked, start.joins.Keys, c1.table)
    requires Dependency(catalog, blocked, start.joins.Keys, c2.table)
    requires c1.references == c2.references == d.table && d.table !in blocked && d.references !in blocked
    ensures c1 == c2
  {
    NoEntryIntoSources(catalog, blocked, start.joins.Keys, base, c1);
    var x := ContinuedTwice(catalog, base, baseKey, blocked, start, st, c1, d);
    var y := ContinuedTwice(catalog, base, baseKey, blocked, start, st, c2, d);
    assert SameArrival(start, x, y);
  }

  lemma ContinuedTwice(catalog: Catalog, base: TableID, baseKey: Constraint, blocked: set<TableID>,
                       start: Search, st: Search, c: Constraint, d: Constraint) returns (x: Join)
    requires ParentPhase(catalog, base, baseKey, blocked, start)
    requires LoopInv(catalog, base, baseKey, blocked, start, st) && Complete(catalog, st.joins)
    requires IsForeignKey(catalog, c) && IsForeignKey(catalog, d)
    requires Dependency(catalog, blocked, start.joins.Keys, c.table)
    requires c.references == d.table && d.table !in blocked && d.references !in blocked
    ensures Stored(st.joins, x) && |x.fkeys| > 1 && LastKey(x) == d && KeyBefore(x) == c
  {
    var j := DependencyStored(catalog, base, baseKey, blocked, start, st, c.table);
    NotArrivedBy(catalog, base, baseKey, blocked, start, st, j, c);
    assert Continued(st.joins, j, c);
    var k := Snoc(j, c, c.references);
    NotArrivedBy(catalog, base, baseKey, blocked, start, st, k, d);
    assert Continued(st.joins, k, d);
    x := Snoc(k, d, d.references);
  }

  lemma LastTwoDiffer(catalog: Catalog, base: TableID, baseKey: Constraint, x: Join)
    requires SimplePath(catalog, base, baseKey, x) && |x.tableIDs| > 1
    ensures x.tableIDs[|x.tableIDs| - 2] != End(x)
  {
    assert Differ(x.tableIDs, |x.tableIDs| - 2, |x.tableIDs| - 1);
  }

  /** No chain is continued into a table of the first phase. */
  lemma NotContinuedBack(catalog: Catalog, base: TableID, baseKey: Constraint, blocked: set<TableID>,
                         start: Search, st: Search, j: Join, c: Constraint)
    requires ParentPhase(catalog, base, baseKey, blocked, start)
    requires LoopInv(catalog, base, baseKey, blocked, start, st)
    requires Stored(st.joins, j) && IsForeignKey(catalog, c) && c.table == End(j) && c.references in blocked
    ensures !Continued(st.joins, j, c)
  {
    if Continued(st.joins, j, c) {
      var x := Snoc(j, c, c.references);
      assert SimplePath(catalog, base, baseKey, x) && SimplePath(catalog, base, baseKey, j) by {
        assert j in st.joins[End(j)] && x in st.joins[End(x)];
      }
      assert Stored(start.joins, x) && x.tableIDs[|x.tableIDs| - 2] == c.table;
      LastTwoDiffer(catalog, base, baseKey, x);
    }
  }

  lemma CompleteSeeds(catalog: Catalog, base: TableID, baseKey: Constraint, blocked: set<TableID>, start: Search,
                      st: Search)
    requires ParentPhase(catalog, base, baseKey, blocked, start)
    requires LoopInv(catalog, base, baseKey, blocked, start, st) && Complete(catalog, st.joins)
    ensures SeedsClosed(catalog, blocked, start.joins)
  {
    forall id, j, c | id in start.joins && j in start.joins[id] && IsForeignKey(catalog, c) && c.table == id
        && c.references in blocked
      ensures CameAlong(j, c)
    {
      assert Stored(start.joins, j);
      NotContinuedBack(catalog, base, baseKey, blocked, start, st, j, c);
    }
  }

  /** The parent-ward loop misses no chain exactly when the graph it walks has no cycle,
      no table with keys of its own is entered twice, and the chains of the first phase
      leave no key behind. */
  lemma CompleteExactly(catalog: Catalog, base: TableID, baseKey: Constraint, blocked: set<TableID>, start: Search)
    requires ParentPhase(catalog, base, baseKey, blocked, start)
    ensures Complete(catalog, Run(catalog, Parentward, start).joins) <==>
            && Acyclic(catalog, blocked, start.joins.Keys) && SingleEntry(catalog, blocked, start.joins.Keys)
            && SeedsClosed(catalog, blocked, start.joins)
  {
    StartInv(catalog, base, baseKey, blocked, start);
    RunInv(catalog, base, baseKey, blocked, start, start);
    var final := Run(catalog, Parentward, start);
    if Complete(catalog, final.joins) {
      CompleteIsAcyclic(catalog, base, baseKey, blocked, start, final);
      CompleteSeeds(catalog, base, baseKey, blocked, start, final);
      StartOrdered(catalog, base, baseKey, blocked, start);
      RunOrdered(catalog, base, baseKey, blocked, start, start);
      forall c1, c2, d |
        && IsForeignKey(catalog, c1) && IsForeignKey(catalog, c2) && IsForeignKey(catalog, d)
        && Dependency(catalog, blocked, start.joins.Keys, c1.table)
           && Dependency(catalog, blocked, start.joins.Keys, c2.table)
        && c1.references == c2.references == d.table && d.table !in blocked && d.references !in blocked
        ensures c1 == c2
      {
        EntriesAgree(catalog, base, baseKey, blocked, start, final, c1, c2, d);
      }
    }
    if Acyclic(catalog, blocked, start.joins.Keys) && SingleEntry(catalog, blocked, start.joins.Keys)
       && SeedsClosed(catalog, blocked, start.joins)
    {
      TreesAreComplete(catalog, base, baseKey, blocked, start);
    }
  }

  // ----- Subset -----

  lemma PlainPhase(catalog: Catalog, base: TableID, baseKey: Constraint)
    requires Closed(catalog)
    ensures ParentPhase(catalog, base, baseKey, {}, PlainStart(catalog, base, baseKey))
  {
    StartGood(catalog, base, baseKey);
    assert StartJoins(base, baseKey).Keys == {base};
  }

  /** Subset misses no chain exactly when the tables the base depends on form no cycle
      and each one with foreign keys of its own is entered by a single foreign key. */
  lemma SubsetCompleteExactly(catalog: Catalog, base: TableID, baseKey: Constraint)
    requires Closed(catalog)
    ensures Complete(catalog, PlainSearch(catalog, base, baseKey).joins) <==>
            Acyclic(catalog, {}, {base}) && SingleEntry(catalog, {}, {base})
  {
    PlainPhase(catalog, base, baseKey);
    assert StartJoins(base, baseKey).Keys == {base};
    CompleteExactly(catalog, base, baseKey, {}, PlainStart(catalog, base, baseKey));
    assert SeedsClosed(catalog, {}, StartJoins(base, baseKey));
  }

  // ----- ExtendedSubset -----

  /** In a chain of the first phase every step goes from a parent to a child. */
  ghost predicate ChildSteps(joins: Joins) {
    forall j {:trigger Stored(joins, j)} :: Stored(joins, j) && |j.fkeys| > 1 ==>
      |j.tableIDs| > 1 && LastKey(j).table == End(j) && LastKey(j).references == j.tableIDs[|j.tableIDs| - 2]
  }

  lemma {:induction false} RunChildSteps(catalog: Catalog, base: TableID, baseKey: Constraint, st: Search)
    requires Closed(catalog) && GoodJoins(catalog, base, baseKey, st.joins) && Frontier(catalog, Childward, st)
    requires ChildSteps(st.joins)
    ensures ChildSteps(Run(catalog, Childward, st).joins)
    decreases AllConstraints(catalog) - st.visited, |st.toVisit|
  {
    if st.toVisit == [] {
    } else {
      StepQueued(catalog, Childward, st);
      StepGoodJoins(catalog, base, baseKey, Childward, st);
      StepFrontier(catalog, Childward, st);
      var next := Step(catalog, Childward, st);
      var c := st.toVisit[|st.toVisit| - 1];
      assert c in st.toVisit;
      forall j | Stored(next.joins, j) && |j.fkeys| > 1
        ensures |j.tableIDs| > 1 && LastKey(j).table == End(j) && LastKey(j).references == j.tableIDs[|j.tableIDs| - 2]
      {
        if !Stored(st.joins, j) {
          GrownChains(catalog, base, baseKey, st.joins, Childward, c, j);
        }
      }
      RunChildSteps(catalog, base, baseKey, next);
    }
  }

  lemma ExtendedPhase(catalog: Catalog, base: TableID, baseKey: Constraint, order: seq<TableID>)
    requires Closed(catalog) && Lists(order, ChildSearch(catalog, base, baseKey).joins.Keys)
    ensures var mid := ChildSearch(catalog, base, baseKey);
            ParentPhase(catalog, base, baseKey, mid.joins.Keys, ParentStart(catalog, mid, order))
                && ChildSteps(mid.joins)
  {
    var mid := ChildSearch(catalog, base, baseKey);
    ParentStartGood(catalog, base, baseKey, order);
    StartGood(catalog, base, baseKey);
    RunChildSteps(catalog, base, baseKey, ChildStart(catalog, base, baseKey));
    forall j, k | Stored(mid.joins, j) && 0 <= k < |j.tableIDs| - 1 ensures j.tableIDs[k] in mid.joins {
      TablesOnPathAreKeys(catalog, base, baseKey, mid.joins, j, k);
    }
  }

  /** The tables that depend on the base form a tree: the base has no key into them, and
      each of the others only one. */
  ghost predicate ChildTree(catalog: Catalog, base: TableID, children: set<TableID>) {
    && (forall c {:trigger IsForeignKey(catalog, c)} :: IsForeignKey(catalog, c) && c.table == base ==>
       c.references !in children)
    && (forall c, d {:trigger IsForeignKey(catalog, c), IsForeignKey(catalog, d)} ::
          && IsForeignKey(catalog, c) && IsForeignKey(catalog, d) && c.table == d.table && c.table in children
          && c.references in children && d.references in children
          ==> c == d)
  }

  lemma SeedsClosedIsChildTree(catalog: Catalog, base: TableID, baseKey: Constraint, start: Search)
    requires ParentPhase(catalog, base, baseKey, start.joins.Keys, start) && ChildSteps(start.joins)
    ensures SeedsClosed(catalog, start.joins.Keys, start.joins) <==> ChildTree(catalog, base, start.joins.Keys)
  {
    var children := start.joins.Keys;
    if SeedsClosed(catalog, children, start.joins) {
      forall c | IsForeignKey(catalog, c) && c.table == base ensures c.references !in children {
        assert Join([base], [baseKey]) in start.joins[base];
      }
      forall c, d | IsForeignKey(catalog, c) && IsForeignKey(catalog, d) && c.table == d.table && c.table in children
                    && c.references in children && d.references in children
        ensures c == d
      {
        assert start.joins[c.table][0] in start.joins[c.table];
      }
    }
    if ChildTree(catalog, base, children) {
      forall id, j, c | id in start.joins && j in start.joins[id] && IsForeignKey(catalog, c) && c.table == id
          && c.references in children
        ensures CameAlong(j, c)
      {
        assert SimplePath(catalog, base, baseKey, j) && Stored(start.joins, j);
        if |j.fkeys| > 1 {
          assert j.fkeys[|j.fkeys| - 1] == LastKey(j);
          assert IsForeignKey(catalog, LastKey(j));
        }
      }
    }
  }

  /** ExtendedSubset misses no chain exactly when the tables depending on the base form a
      tree, and what they depend on beyond themselves is acyclic with single entries. */
  lemma ExtendedSubsetCompleteExactly(catalog: Catalog, base: TableID, baseKey: Constraint, order: seq<TableID>)
    requires Closed(catalog) && Lists(order, ChildSearch(catalog, base, baseKey).joins.Keys)
    ensures var children := ChildSearch(catalog, base, baseKey).joins.Keys;
            Complete(catalog, ExtendedSearch(catalog, base, baseKey, order).joins) <==>
            && ChildTree(catalog, base, children)
            && Acyclic(catalog, children, children) && SingleEntry(catalog, children, children)
  {
    var mid := ChildSearch(catalog, base, baseKey);
    ExtendedPhase(catalog, base, baseKey, order);
    var start := ParentStart(catalog, mid, order);
    CompleteExactly(catalog, base, baseKey, mid.joins.Keys, start);
    SeedsClosedIsChildTree(catalog, base, baseKey, start);
  }
}
