/** What one catalog is after another was written into it: a faithful copy if it was empty, and unchanged by a second
    writing exactly if nothing is ignored and all constraints have names. */
module CatalogMerging {
  import opened Common
  import opened Catalogs
  import opened CachePositions
  import opened CacheIndexing

  // ----- any list -----

  /** A list with objects added or put in their places, one after another; what an object becomes depends on what was
      there. */
  function MergedBy<T>(g: (Option<T>, T) -> T, dest: seq<Object<T>>, src: seq<Object<T>>): seq<Object<T>> {
    if src == [] then dest
    else
      var done, x := MergedBy(g, dest, src[..|src| - 1]), src[|src| - 1];
      Upserted(done, Object(x.name, x.ignore, g(LiveDef(done, x.name), x.def)))
  }

  lemma NotEarlier<T>(xs: seq<Object<T>>, k: nat)
    requires UniqueNames(xs) && k < |xs|
    ensures LiveIndex(xs[..k], xs[k].name) == None
  {
    NotThere(xs[..k], xs[k].name);
  }

  /** The object is copied where there was none of its name. */
  ghost predicate Copies<T>(g: (Option<T>, T) -> T, x: Object<T>) {
    g(None, x.def) == x.def
  }

  /** Into an empty list, a list of distinct names is copied. */
  lemma {:induction false} MergedIntoEmpty<T>(g: (Option<T>, T) -> T, src: seq<Object<T>>, k: nat)
    requires UniqueNames(src) && k <= |src| && forall i :: 0 <= i < |src| ==> Copies(g, src[i])
    ensures MergedBy(g, [], src[..k]) == src[..k]
  {
    if k == 0 {
    } else {
      MergedIntoEmpty(g, src, k - 1);
      NotEarlier(src, k - 1);
      assert Copies(g, src[k - 1]);
      CopiedNext(g, src, k - 1);
    }
  }

  lemma CopiedNext<T>(g: (Option<T>, T) -> T, src: seq<Object<T>>, k: nat)
    requires k < |src| && Copies(g, src[k]) && LiveIndex(src[..k], src[k].name) == None
    requires MergedBy(g, [], src[..k]) == src[..k]
    ensures MergedBy(g, [], src[..k + 1]) == src[..k + 1]
  {
    assert src[..k + 1][..k] == src[..k] && src[..k + 1][k] == src[k];
    assert src[..k] + [src[k]] == src[..k + 1];
  }

  /** The object is written over itself without a change. */
  ghost predicate Stays<T>(g: (Option<T>, T) -> T, x: Object<T>) {
    !x.ignore && g(Some(x.def), x.def) == x.def
  }

  lemma {:induction false} MergedIntoItself<T>(g: (Option<T>, T) -> T, xs: seq<Object<T>>, k: nat)
    requires UniqueNames(xs) && k <= |xs| && forall i :: 0 <= i < k ==> Stays(g, xs[i])
    ensures MergedBy(g, xs, xs[..k]) == xs
  {
    if k == 0 {
    } else {
      MergedIntoItself(g, xs, k - 1);
      assert xs[..k][..k - 1] == xs[..k - 1] && xs[..k][k - 1] == xs[k - 1];
      FoundAt(xs, k - 1);
      assert Stays(g, xs[k - 1]);
      assert xs[k - 1 := xs[k - 1]] == xs;
    }
  }

  lemma MergedNext<T>(g: (Option<T>, T) -> T, dest: seq<Object<T>>, src: seq<Object<T>>, k: nat)
    requires k < |src|
    ensures var done, next := MergedBy(g, dest, src[..k]), MergedBy(g, dest, src[..k + 1]);
      && |next| >= |done| && forall j :: 0 <= j < |done| && done[j].name != src[k].name ==> next[j] == done[j]
  {
    assert src[..k + 1][..k] == src[..k];
  }

  lemma {:induction false} MergedGrows<T>(g: (Option<T>, T) -> T, dest: seq<Object<T>>, src: seq<Object<T>>, k: nat)
    requires k <= |src|
    ensures |MergedBy(g, dest, src)| >= |MergedBy(g, dest, src[..k])|
    decreases |src| - k
  {
    if k == |src| {
      assert src[..k] == src;
    } else {
      MergedNext(g, dest, src, k);
      MergedGrows(g, dest, src, k + 1);
    }
  }

  /** An object stays in its place if none of its name follows. */
  lemma {:induction false} MergedKeeps<T>(g: (Option<T>, T) -> T, dest: seq<Object<T>>, src: seq<Object<T>>, k: nat,
                                          j: nat)
    requires k <= |src| && j < |MergedBy(g, dest, src[..k])|
    requires forall i :: k <= i < |src| ==> src[i].name != MergedBy(g, dest, src[..k])[j].name
    ensures j < |MergedBy(g, dest, src)| && MergedBy(g, dest, src)[j] == MergedBy(g, dest, src[..k])[j]
    decreases |src| - k
  {
    if k == |src| {
      assert src[..k] == src;
    } else {
      MergedNext(g, dest, src, k);
      MergedKeeps(g, dest, src, k + 1, j);
    }
  }

  ghost function FirstChanged<T>(g: (Option<T>, T) -> T, xs: seq<Object<T>>, k: nat): (r: nat)
    requires k <= |xs| && exists i :: k <= i < |xs| && !Stays(g, xs[i])
    ensures k <= r < |xs| && !Stays(g, xs[r]) && forall i :: k <= i < r ==> Stays(g, xs[i])
    decreases |xs| - k
  {
    if !Stays(g, xs[k]) then k else FirstChanged(g, xs, k + 1)
  }

  /** A list with distinct names is written over itself without a change exactly if each object is. An ignored one is
      added again. */
  lemma MergedIntoItselfExactly<T>(g: (Option<T>, T) -> T, xs: seq<Object<T>>)
    requires UniqueNames(xs)
    ensures MergedBy(g, xs, xs) == xs <==> forall i :: 0 <= i < |xs| ==> Stays(g, xs[i])
  {
    if forall i :: 0 <= i < |xs| ==> Stays(g, xs[i]) {
      MergedIntoItself(g, xs, |xs|);
      assert xs[..|xs|] == xs;
    } else {
      var k := FirstChanged(g, xs, 0);
      MergedIntoItself(g, xs, k);
      ChangedStays(g, xs, k);
    }
  }

  lemma ChangedStays<T>(g: (Option<T>, T) -> T, xs: seq<Object<T>>, k: nat)
    requires UniqueNames(xs) && k < |xs| && !Stays(g, xs[k]) && MergedBy(g, xs, xs[..k]) == xs
    ensures MergedBy(g, xs, xs) != xs
  {
    var x := xs[k];
    assert xs[..k + 1][..k] == xs[..k] && xs[..k + 1][k] == x;
    FoundAt(xs, k);
    if x.ignore {
      assert |MergedBy(g, xs, xs[..k + 1])| == |xs| + 1;
      MergedGrows(g, xs, xs, k + 1);
    } else {
      assert MergedBy(g, xs, xs[..k + 1])[k] == Object(x.name, false, g(Some(x.def), x.def));
      MergedKeeps(g, xs, xs, k + 1, k);
    }
  }

  // ----- lists of columns and indexes -----

  /** An object takes the place of the one that was there. */
  function Latest<T>(was: Option<T>, now: T): T {
    now
  }

  function Merged<T>(dest: seq<Object<T>>, src: seq<Object<T>>): seq<Object<T>> {
    MergedBy(Latest, dest, src)
  }

  /** A list with distinct names can be written again without a change, exactly if nothing in it is ignored. */
  lemma RewritingIsIdempotentExactly<T>(xs: seq<Object<T>>)
    requires UniqueNames(xs)
    ensures Merged([], xs) == xs
    ensures Merged(Merged([], xs), xs) == Merged([], xs) <==> forall i :: 0 <= i < |xs| ==> !xs[i].ignore
  {
    assert forall i :: 0 <= i < |xs| ==> Copies(Latest, xs[i]);
    MergedIntoEmpty(Latest, xs, |xs|);
    assert xs[..|xs|] == xs;
    MergedIntoItselfExactly(Latest, xs);
    assert forall i :: 0 <= i < |xs| ==> (Stays(Latest, xs[i]) <==> !xs[i].ignore);
  }

  // ----- lists of constraints -----

  /** A list of constraints, and the place noted for those that have no name. */
  datatype Slots = Slots(list: seq<Constraint>, unnamed: Option<nat>)

  function Place(s: Slots, name: string): (r: Option<nat>)
    ensures r.Some? ==> r.value < |s.list|
  {
    if name != "" then LiveIndex(s.list, name)
    else
      match s.unnamed
      case None => None
      case Some(i) => if i < |s.list| && !s.list[i].ignore then Some(i) else None
  }

  function Put(s: Slots, c: Constraint): Slots {
    match Place(s, c.name)
    case None => Slots(s.list + [c], if c.name == "" then Some(|s.list|) else s.unnamed)
    case Some(i) => s.(list := s.list[i := c])
  }

  function MergedSlots(s: Slots, src: seq<Constraint>): Slots {
    if src == [] then s else Put(MergedSlots(s, src[..|src| - 1]), src[|src| - 1])
  }

  ghost predicate Named(cs: seq<Constraint>) {
    forall k :: 0 <= k < |cs| ==> cs[k].name != ""
  }

  /** A constraint has a place of its own if it has a name, or if those without one were all written by this cache. */
  lemma {:induction false} SlotsAreMerged(s: Slots, src: seq<Constraint>)
    requires Named(src) || s.unnamed == LastIndex(s.list, "")
    ensures MergedSlots(s, src).list == Merged(s.list, src)
    ensures s.unnamed == LastIndex(s.list, "") ==>
              MergedSlots(s, src).unnamed == LastIndex(MergedSlots(s, src).list, "")
  {
    if src == [] {
    } else {
      var init, c := src[..|src| - 1], src[|src| - 1];
      var done := MergedSlots(s, init);
      SlotsAreMerged(s, init);
      match Place(done, c.name)
      case None => LastIndexSnoc(done.list, c, "");
      case Some(i) =>
        if c.name != "" || done.unnamed == LastIndex(done.list, "") {
          LastIndexUpdate(done.list, i, c, "");
        }
    }
  }

  lemma {:induction false} SlotsGrow(s: Slots, src: seq<Constraint>, k: nat)
    requires k <= |src|
    ensures |MergedSlots(s, src).list| >= |MergedSlots(s, src[..k]).list|
    decreases |src| - k
  {
    if k == |src| {
      assert src[..k] == src;
    } else {
      SlotsGrow(s, src, k + 1);
      assert src[..k + 1][..k] == src[..k];
    }
  }

  lemma {:induction false} UnnamedUntil(s: Slots, src: seq<Constraint>)
    requires s.unnamed == None && Named(src)
    ensures MergedSlots(s, src).unnamed == None
  {
    if src == [] {
    } else {
      UnnamedUntil(s, src[..|src| - 1]);
    }
  }

  ghost function FirstUnnamed(cs: seq<Constraint>): (k: nat)
    requires !Named(cs)
    ensures k < |cs| && cs[k].name == "" && Named(cs[..k])
  {
    if cs[0].name == "" then 0
    else
      assert Named(cs[1..]) ==> Named(cs) by {
        assert forall k :: 1 <= k < |cs| ==> cs[k] == cs[1..][k - 1];
      }
      1 + FirstUnnamed(cs[1..])
  }

  /** A new cache does not know of constraints without a name, so that one is added again each time. */
  lemma UnnamedIsAddedAgain(cs: seq<Constraint>)
    requires !Named(cs)
    ensures |MergedSlots(Slots(cs, None), cs).list| > |cs|
  {
    var k := FirstUnnamed(cs);
    SlotsGrow(Slots(cs, None), cs[..k], 0);
    UnnamedUntil(Slots(cs, None), cs[..k]);
    assert cs[..k][..0] == [];
    assert cs[..k + 1][..k] == cs[..k];
    SlotsGrow(Slots(cs, None), cs, k + 1);
  }

  /** Two constraints without a name come out as one. */
  lemma UnnamedAreLost(a: Constraint, b: Constraint)
    requires a.name == b.name == "" && !a.ignore
    ensures MergedSlots(Slots([], None), [a, b]).list == [b]
  {
    assert [a, b][..1] == [a] && [a][..0] == [];
    assert MergedSlots(Slots([], None), [a]).list == [a];
  }

  // ----- tables -----

  /** Constraints are merged by a new cache, which has noted none without a name. */
  function MergedDef(was: Option<TableDef>, now: TableDef): TableDef {
    var t := was.UnwrapOr(NO_TABLE);
    TableDef(Merged(t.columns, now.columns), MergedSlots(Slots(t.constraints, None), now.constraints).list,
             Merged(t.indexes, now.indexes))
  }

  function MergedTables(dest: seq<Table>, src: seq<Table>): seq<Table> {
    MergedBy(MergedDef, dest, src)
  }

  function MergedSchema(was: Option<seq<Table>>, now: seq<Table>): seq<Table> {
    MergedTables(was.UnwrapOr([]), now)
  }

  function MergedSchemas(dest: seq<Schema>, src: seq<Schema>): seq<Schema> {
    MergedBy(MergedSchema, dest, src)
  }

  /** Nothing in a table has the name of another; one constraint may have none. */
  ghost predicate ProperDef(t: TableDef) {
    UniqueNames(t.columns) && UniqueNames(t.constraints) && UniqueNames(t.indexes)
  }

  ghost predicate ProperTables(ts: seq<Table>) {
    UniqueNames(ts) && forall k :: 0 <= k < |ts| ==> ProperDef(ts[k].def)
  }

  ghost predicate Proper(cat: seq<Schema>) {
    UniqueNames(cat) && forall k :: 0 <= k < |cat| ==> ProperTables(cat[k].def)
  }

  /** Nothing is ignored, and all constraints have names. */
  ghost predicate SettledDef(t: TableDef) {
    Plain(t.columns) && Plain(t.constraints) && Plain(t.indexes) && Named(t.constraints)
  }

  ghost predicate SettledTables(ts: seq<Table>) {
    forall k :: 0 <= k < |ts| ==> !ts[k].ignore && SettledDef(ts[k].def)
  }

  ghost predicate Settled(cat: seq<Schema>) {
    forall k :: 0 <= k < |cat| ==> !cat[k].ignore && SettledTables(cat[k].def)
  }

  lemma DefIntoNothing(t: TableDef)
    requires ProperDef(t)
    ensures MergedDef(None, t) == t
  {
    RewritingIsIdempotentExactly(t.columns);
    RewritingIsIdempotentExactly(t.constraints);
    RewritingIsIdempotentExactly(t.indexes);
    SlotsAreMerged(Slots([], None), t.constraints);
  }

  lemma DefIntoItselfExactly(t: TableDef)
    requires ProperDef(t)
    ensures MergedDef(Some(t), t) == t <==> SettledDef(t)
  {
    RewritingIsIdempotentExactly(t.columns);
    RewritingIsIdempotentExactly(t.constraints);
    RewritingIsIdempotentExactly(t.indexes);
    if Named(t.constraints) {
      SlotsAreMerged(Slots(t.constraints, None), t.constraints);
    } else {
      UnnamedIsAddedAgain(t.constraints);
    }
  }

  /** Into an empty schema, the tables are copied with all their lists, in order, ignored ones too. */
  lemma TablesIntoEmpty(src: seq<Table>)
    requires ProperTables(src)
    ensures MergedTables([], src) == src
  {
    forall k | 0 <= k < |src| ensures Copies(MergedDef, src[k]) {
      DefIntoNothing(src[k].def);
    }
    MergedIntoEmpty(MergedDef, src, |src|);
    assert src[..|src|] == src;
  }

  lemma TablesIntoThemselvesExactly(ts: seq<Table>)
    requires ProperTables(ts)
    ensures MergedTables(ts, ts) == ts <==> SettledTables(ts)
  {
    forall k | 0 <= k < |ts| ensures Stays(MergedDef, ts[k]) <==> !ts[k].ignore && SettledDef(ts[k].def) {
      DefIntoItselfExactly(ts[k].def);
    }
    MergedIntoItselfExactly(MergedDef, ts);
  }

  /** Into an empty catalog, a catalog is copied. */
  lemma CatalogIntoEmpty(src: seq<Schema>)
    requires Proper(src)
    ensures MergedSchemas([], src) == src
  {
    forall k | 0 <= k < |src| ensures Copies(MergedSchema, src[k]) {
      TablesIntoEmpty(src[k].def);
    }
    MergedIntoEmpty(MergedSchema, src, |src|);
    assert src[..|src|] == src;
  }

  /** A second writing changes nothing exactly if nothing is ignored and all constraints have names. */
  lemma CatalogIntoItselfExactly(cat: seq<Schema>)
    requires Proper(cat)
    ensures MergedSchemas(cat, cat) == cat <==> Settled(cat)
  {
    forall k | 0 <= k < |cat| ensures Stays(MergedSchema, cat[k]) <==> !cat[k].ignore && SettledTables(cat[k].def) {
      TablesIntoThemselvesExactly(cat[k].def);
    }
    MergedIntoItselfExactly(MergedSchema, cat);
  }
}
