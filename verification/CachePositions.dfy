/** Where the objects of a table are kept: maps from names to positions, and what they have to
    say about the lists beside them. */
module CachePositions {
  import opened Common
  import opened Catalogs

  /** The name of an object within a table. */
  datatype Key = Key(table: TableID, name: string)

  function At<K, V>(m: map<K, V>, k: K): Option<V> {
    if k in m then Some(m[k]) else None
  }

  /** The position of the last object of a name. */
  function LastIndex<T>(xs: seq<Object<T>>, name: string): (r: Option<nat>)
    ensures r.Some? ==> r.value < |xs| && xs[r.value].name == name
  {
    if xs == [] then None
    else if xs[|xs| - 1].name == name then Some(|xs| - 1)
    else LastIndex(xs[..|xs| - 1], name)
  }

  /** A scan for the last object of a name, which must not be ignored, by its position. */
  lemma {:induction false} FindByIndex<T>(xs: seq<Object<T>>, name: string)
    ensures Find(xs, name) ==
            match LastIndex(xs, name)
            case None => None
            case Some(i) => if xs[i].ignore then None else Some(xs[i])
  {
    if xs == [] {
    } else {
      FindByIndex(xs[..|xs| - 1], name);
    }
  }

  /** The position of the last object of a name, unless it is ignored. */
  function LiveIndex<T>(xs: seq<Object<T>>, name: string): (r: Option<nat>)
    ensures r.Some? ==> r.value < |xs| && xs[r.value].name == name && !xs[r.value].ignore
  {
    match LastIndex(xs, name)
    case None => None
    case Some(i) => if xs[i].ignore then None else Some(i)
  }

  /** What the last object of a name is defined as, unless it is ignored. */
  function LiveDef<T>(xs: seq<Object<T>>, name: string): Option<T> {
    match LiveIndex(xs, name)
    case None => None
    case Some(i) => Some(xs[i].def)
  }

  /** A list with an object added, or put in the place of the one of its name. */
  function Upserted<T>(xs: seq<Object<T>>, x: Object<T>): seq<Object<T>> {
    match LiveIndex(xs, x.name)
    case None => xs + [x]
    case Some(i) => xs[i := x]
  }

  /** The map has the positions of all objects of one table. */
  ghost predicate Agrees<T>(m: map<Key, nat>, id: TableID, xs: seq<Object<T>>) {
    forall n {:trigger Key(id, n)} {:trigger LastIndex(xs, n)} :: At(m, Key(id, n)) == LastIndex(xs, n)
  }

  /** The same for objects with a name; of those without one, any may be noted. */
  ghost predicate AgreesNamed<T>(m: map<Key, nat>, id: TableID, xs: seq<Object<T>>) {
    && (forall n {:trigger Key(id, n)} {:trigger LastIndex(xs, n)} :: n != "" ==> At(m, Key(id, n)) == LastIndex(xs, n))
    && NotesUnnamed(m, id, xs)
  }

  ghost predicate NotesUnnamed<T>(m: map<Key, nat>, id: TableID, xs: seq<Object<T>>) {
    match At(m, Key(id, ""))
    case None => true
    case Some(i) => i < |xs| && xs[i].name == ""
  }

  /** What another table's objects are called does not matter. */
  ghost predicate SameElsewhere(a: map<Key, nat>, b: map<Key, nat>, id: TableID) {
    forall k: Key {:trigger At(b, k)} :: k.table != id ==> At(a, k) == At(b, k)
  }

  ghost predicate SameTables<V>(a: map<TableID, V>, b: map<TableID, V>, id: TableID) {
    forall other: TableID {:trigger At(b, other)} :: other != id ==> At(a, other) == At(b, other)
  }

  lemma SameTablesTwice<V>(a: map<TableID, V>, b: map<TableID, V>, c: map<TableID, V>, id: TableID)
    requires SameTables(a, b, id) && SameTables(b, c, id)
    ensures SameTables(a, c, id)
  {
    forall other: TableID | other != id ensures At(a, other) == At(c, other) {
      assert At(a, other) == At(b, other);
    }
  }

  lemma SameElsewhereTwice(a: map<Key, nat>, b: map<Key, nat>, c: map<Key, nat>, id: TableID)
    requires SameElsewhere(a, b, id) && SameElsewhere(b, c, id)
    ensures SameElsewhere(a, c, id)
  {
    forall k: Key | k.table != id ensures At(a, k) == At(c, k) {
      assert At(a, k) == At(b, k);
    }
  }

  lemma OneChange(m: map<Key, nat>, k: Key, i: nat)
    ensures SameElsewhere(m, m[k := i], k.table)
  {
    forall j: Key | j.table != k.table ensures At(m, j) == At(m[k := i], j) {
      assert j != k;
    }
  }

  lemma LastIndexSnoc<T>(xs: seq<Object<T>>, x: Object<T>, n: string)
    ensures LastIndex(xs + [x], n) == if n == x.name then Some(|xs|) else LastIndex(xs, n)
  {
    assert (xs + [x])[..|xs|] == xs;
  }

  lemma {:induction false} LastIndexUpdate<T>(xs: seq<Object<T>>, i: nat, x: Object<T>, n: string)
    requires i < |xs| && xs[i].name == x.name
    ensures LastIndex(xs[i := x], n) == LastIndex(xs, n)
  {
    var ys := xs[i := x];
    if i == |xs| - 1 {
      assert ys[..|ys| - 1] == xs[..|xs| - 1];
    } else {
      assert ys[..|ys| - 1] == xs[..|xs| - 1][i := x];
      LastIndexUpdate(xs[..|xs| - 1], i, x, n);
    }
  }

  lemma AgreesSnoc<T>(m: map<Key, nat>, id: TableID, xs: seq<Object<T>>, x: Object<T>)
    requires Agrees(m, id, xs)
    ensures Agrees(m[Key(id, x.name) := |xs|], id, xs + [x])
    ensures SameElsewhere(m, m[Key(id, x.name) := |xs|], id)
  {
    var after := m[Key(id, x.name) := |xs|];
    forall n ensures At(after, Key(id, n)) == LastIndex(xs + [x], n) {
      LastIndexSnoc(xs, x, n);
    }
    OneChange(m, Key(id, x.name), |xs|);
  }

  lemma AgreesUpdate<T>(m: map<Key, nat>, id: TableID, xs: seq<Object<T>>, i: nat, x: Object<T>)
    requires Agrees(m, id, xs) && i < |xs| && xs[i].name == x.name
    ensures Agrees(m, id, xs[i := x])
  {
    forall n ensures At(m, Key(id, n)) == LastIndex(xs[i := x], n) {
      LastIndexUpdate(xs, i, x, n);
    }
  }

  function NamesWith(m: map<Key, nat>, k: Key, i: nat): map<Key, nat> {
    if k.name == "" then m else m[k := i]
  }

  lemma AgreesNamedSnoc<T>(m: map<Key, nat>, id: TableID, xs: seq<Object<T>>, x: Object<T>)
    requires AgreesNamed(m, id, xs)
    ensures AgreesNamed(NamesWith(m, Key(id, x.name), |xs|), id, xs + [x])
    ensures AgreesNamed(m[Key(id, x.name) := |xs|], id, xs + [x])
    ensures SameElsewhere(m, NamesWith(m, Key(id, x.name), |xs|), id)
    ensures SameElsewhere(m, m[Key(id, x.name) := |xs|], id)
  {
    var after := m[Key(id, x.name) := |xs|];
    forall n | n != "" ensures At(after, Key(id, n)) == LastIndex(xs + [x], n) {
      LastIndexSnoc(xs, x, n);
    }
    forall n | n != "" && x.name == "" ensures At(m, Key(id, n)) == LastIndex(xs + [x], n) {
      LastIndexSnoc(xs, x, n);
    }
    OneChange(m, Key(id, x.name), |xs|);
  }

  lemma AgreesNamedUpdate<T>(m: map<Key, nat>, id: TableID, xs: seq<Object<T>>, i: nat, x: Object<T>)
    requires AgreesNamed(m, id, xs) && i < |xs| && xs[i].name == x.name
    ensures AgreesNamed(m, id, xs[i := x])
  {
    forall n | n != "" ensures At(m, Key(id, n)) == LastIndex(xs[i := x], n) {
      LastIndexUpdate(xs, i, x, n);
    }
  }

  lemma AgreesFrame<T>(a: map<Key, nat>, b: map<Key, nat>, id: TableID, other: TableID, xs: seq<Object<T>>)
    requires SameElsewhere(a, b, id) && other != id
    ensures Agrees(a, other, xs) ==> Agrees(b, other, xs)
    ensures AgreesNamed(a, other, xs) ==> AgreesNamed(b, other, xs)
  {
    forall n ensures At(a, Key(other, n)) == At(b, Key(other, n)) {
    }
  }

  /** The map has the positions of all tables of one schema. */
  ghost predicate Placed<T>(m: map<TableID, nat>, schema: string, xs: seq<Object<T>>) {
    forall n {:trigger TableID(schema, n)} {:trigger LastIndex(xs, n)} :: At(m, TableID(schema, n)) == LastIndex(xs, n)
  }

  /** What the tables of another schema are called does not matter. */
  ghost predicate SameSchemas(a: map<TableID, nat>, b: map<TableID, nat>, schema: string) {
    forall id: TableID {:trigger At(b, id)} :: id.schema != schema ==> At(a, id) == At(b, id)
  }

  lemma PlacedSnoc<T>(m: map<TableID, nat>, schema: string, xs: seq<Object<T>>, x: Object<T>)
    requires Placed(m, schema, xs)
    ensures Placed(m[TableID(schema, x.name) := |xs|], schema, xs + [x])
    ensures SameSchemas(m, m[TableID(schema, x.name) := |xs|], schema)
  {
    var after := m[TableID(schema, x.name) := |xs|];
    forall n ensures At(after, TableID(schema, n)) == LastIndex(xs + [x], n) {
      LastIndexSnoc(xs, x, n);
    }
    forall id: TableID | id.schema != schema ensures At(m, id) == At(after, id) {
      assert id != TableID(schema, x.name);
    }
  }

  lemma PlacedFrame<T>(a: map<TableID, nat>, b: map<TableID, nat>, schema: string, other: string, xs: seq<Object<T>>)
    requires SameSchemas(a, b, schema) && other != schema
    ensures Placed(a, other, xs) ==> Placed(b, other, xs)
  {
    forall n ensures At(a, TableID(other, n)) == At(b, TableID(other, n)) {
    }
  }

  lemma SameSchemasTwice(a: map<TableID, nat>, b: map<TableID, nat>, c: map<TableID, nat>, schema: string)
    requires SameSchemas(a, b, schema) && SameSchemas(b, c, schema)
    ensures SameSchemas(a, c, schema)
  {
    forall id: TableID | id.schema != schema ensures At(a, id) == At(c, id) {
      assert At(a, id) == At(b, id);
    }
  }

  lemma PlacedUpdate<T>(m: map<TableID, nat>, schema: string, xs: seq<Object<T>>, i: nat, x: Object<T>)
    requires Placed(m, schema, xs) && i < |xs| && xs[i].name == x.name
    ensures Placed(m, schema, xs[i := x])
  {
    forall n ensures At(m, TableID(schema, n)) == LastIndex(xs[i := x], n) {
      LastIndexUpdate(xs, i, x, n);
    }
  }

  // ----- keys -----

  /** The position of the last primary key. */
  function PkeyIndex(cs: seq<Constraint>): (r: Option<nat>)
    ensures r.Some? ==> r.value < |cs|
  {
    if cs == [] then None
    else if cs[|cs| - 1].def.constraintType == PrimaryKey then Some(|cs| - 1)
    else PkeyIndex(cs[..|cs| - 1])
  }

  /** The positions of the foreign keys, in order. */
  function FkeyIndexes(cs: seq<Constraint>): (r: seq<nat>)
    ensures forall k :: 0 <= k < |r| ==> r[k] < |cs|
  {
    if cs == [] then []
    else FkeyIndexes(cs[..|cs| - 1]) + (if cs[|cs| - 1].def.constraintType == ForeignKey then [|cs| - 1] else [])
  }

  /** The foreign keys that are not ignored, in order. */
  function LiveFkeys(cs: seq<Constraint>): seq<Constraint> {
    if cs == [] then []
    else
      LiveFkeys(cs[..|cs| - 1])
      + (if cs[|cs| - 1].def.constraintType == ForeignKey && !cs[|cs| - 1].ignore then [cs[|cs| - 1]] else [])
  }

  /** The constraint is the last primary key of the list, and not ignored. */
  ghost predicate IsLastPkey(cs: seq<Constraint>, c: Constraint) {
    exists i :: 0 <= i < |cs| && cs[i] == c && LastPkeyAt(cs, i) && !c.ignore
  }

  predicate LastPkeyAt(cs: seq<Constraint>, i: nat)
    requires i < |cs|
  {
    cs[i].def.constraintType == PrimaryKey && forall k :: i < k < |cs| ==> cs[k].def.constraintType != PrimaryKey
  }

  lemma {:induction false} PkeyIndexExactly(cs: seq<Constraint>)
    ensures PkeyIndex(cs) == None ==> forall i :: 0 <= i < |cs| ==> cs[i].def.constraintType != PrimaryKey
    ensures PkeyIndex(cs).Some? ==> LastPkeyAt(cs, PkeyIndex(cs).value)
  {
    if cs == [] {
    } else {
      PkeyIndexExactly(cs[..|cs| - 1]);
    }
  }

  lemma OnlyLastPkey(cs: seq<Constraint>)
    ensures forall c :: IsLastPkey(cs, c) <==>
              PkeyIndex(cs).Some? && c == cs[PkeyIndex(cs).value] && !c.ignore
  {
    PkeyIndexExactly(cs);
    forall i, k | 0 <= i < |cs| && 0 <= k < |cs| && LastPkeyAt(cs, i) && LastPkeyAt(cs, k) ensures i == k {
    }
  }

  /** How many foreign keys that are not ignored are among the first constraints. */
  function FkeysBefore(cs: seq<Constraint>, n: nat): nat
    requires n <= |cs|
  {
    if n == 0 then 0
    else FkeysBefore(cs, n - 1) + (if cs[n - 1].def.constraintType == ForeignKey && !cs[n - 1].ignore then 1 else 0)
  }

  /** The list has each foreign key that is not ignored behind those before it, and nothing else. */
  ghost predicate HasLiveFkeys(cs: seq<Constraint>, r: seq<Constraint>) {
    && |r| == FkeysBefore(cs, |cs|)
    && forall i {:trigger FkeysBefore(cs, i)} ::
         0 <= i < |cs| && cs[i].def.constraintType == ForeignKey && !cs[i].ignore ==>
           FkeysBefore(cs, i) < |r| && r[FkeysBefore(cs, i)] == cs[i]
  }

  lemma {:induction false} FkeysOfPrefix(cs: seq<Constraint>, n: nat)
    requires n < |cs|
    ensures FkeysBefore(cs[..|cs| - 1], n) == FkeysBefore(cs, n)
  {
    if n > 0 {
      FkeysOfPrefix(cs, n - 1);
    }
  }

  lemma {:induction false} LiveFkeysExactly(cs: seq<Constraint>)
    ensures HasLiveFkeys(cs, LiveFkeys(cs))
  {
    if cs == [] {
    } else {
      var init, n := cs[..|cs| - 1], |cs| - 1;
      LiveFkeysExactly(init);
      FkeysOfPrefix(cs, n);
      forall i | 0 <= i < |cs| && cs[i].def.constraintType == ForeignKey && !cs[i].ignore
        ensures FkeysBefore(cs, i) < |LiveFkeys(cs)| && LiveFkeys(cs)[FkeysBefore(cs, i)] == cs[i]
      {
        if i < n {
          FkeysOfPrefix(cs, i);
          assert init[i] == cs[i] && FkeysBefore(init, i) < |LiveFkeys(init)|;
        }
      }
    }
  }

  ghost predicate KeysAgree(pkeys: map<TableID, nat>, fkeys: map<TableID, seq<nat>>, id: TableID, cs: seq<Constraint>) {
    && At(pkeys, id) == PkeyIndex(cs)
    && (if id in fkeys then fkeys[id] else []) == FkeyIndexes(cs)
  }

  lemma {:induction false} KeysUpdate(cs: seq<Constraint>, i: nat, c: Constraint)
    requires i < |cs| && cs[i].def.constraintType == c.def.constraintType
    ensures PkeyIndex(cs[i := c]) == PkeyIndex(cs) && FkeyIndexes(cs[i := c]) == FkeyIndexes(cs)
  {
    var ds := cs[i := c];
    if i == |cs| - 1 {
      assert ds[..|ds| - 1] == cs[..|cs| - 1];
    } else {
      assert ds[..|ds| - 1] == cs[..|cs| - 1][i := c];
      KeysUpdate(cs[..|cs| - 1], i, c);
    }
  }

  /** The positions of the last primary key and of the foreign keys do not change. */
  predicate KeepsKeys(cs: seq<Constraint>, i: nat, c: Constraint)
    requires i < |cs|
  {
    PkeyIndex(cs[i := c]) == PkeyIndex(cs) && FkeyIndexes(cs[i := c]) == FkeyIndexes(cs)
  }

  predicate IsFkey(c: Constraint) {
    c.def.constraintType == ForeignKey
  }

  predicate IsPkey(c: Constraint) {
    c.def.constraintType == PrimaryKey
  }

  /** That is so exactly if it is a foreign key as before or not, and a primary key as before or not, unless there is
      another primary key behind it. */
  lemma KeepsKeysExactly(cs: seq<Constraint>, i: nat, c: Constraint)
    requires i < |cs|
    ensures KeepsKeys(cs, i, c) <==>
            && IsFkey(cs[i]) == IsFkey(c)
            && (IsPkey(cs[i]) == IsPkey(c) || PkeyBehind(cs, i))
  {
    PkeyStaysExactly(cs, i, c);
    FkeysStayExactly(cs, i, c);
  }

  predicate PkeyBehind(cs: seq<Constraint>, i: nat) {
    exists k :: i < k < |cs| && IsPkey(cs[k])
  }

  lemma {:induction false} PkeyStaysExactly(cs: seq<Constraint>, i: nat, c: Constraint)
    requires i < |cs|
    ensures PkeyIndex(cs[i := c]) == PkeyIndex(cs) <==> IsPkey(cs[i]) == IsPkey(c) || PkeyBehind(cs, i)
  {
    var ds, init := cs[i := c], cs[..|cs| - 1];
    if i == |cs| - 1 {
      assert ds[..|ds| - 1] == init;
    } else {
      assert ds[..|ds| - 1] == init[i := c];
      PkeyStaysExactly(init, i, c);
      if PkeyBehind(cs, i) && !IsPkey(cs[|cs| - 1]) {
        var k :| i < k < |cs| && IsPkey(cs[k]);
        assert IsPkey(init[k]);
      }
      if PkeyBehind(init, i) {
        var k :| i < k < |init| && IsPkey(init[k]);
        assert IsPkey(cs[k]);
      }
    }
  }

  lemma {:induction false} FkeysStayExactly(cs: seq<Constraint>, i: nat, c: Constraint)
    requires i < |cs|
    ensures FkeyIndexes(cs[i := c]) == FkeyIndexes(cs) <==> IsFkey(cs[i]) == IsFkey(c)
    ensures |FkeyIndexes(cs[i := c])| == |FkeyIndexes(cs)| <==> IsFkey(cs[i]) == IsFkey(c)
  {
    var ds, init := cs[i := c], cs[..|cs| - 1];
    if i == |cs| - 1 {
      assert ds[..|ds| - 1] == init;
    } else {
      assert ds[..|ds| - 1] == init[i := c];
      FkeysStayExactly(init, i, c);
    }
  }

  /** The position noted for a name, unless what is there is ignored. */
  function Noted<T>(m: map<Key, nat>, id: TableID, xs: seq<Object<T>>, name: string): (r: Option<nat>)
    ensures r.Some? ==> r.value < |xs|
  {
    match At(m, Key(id, name))
    case None => None
    case Some(i) => if i < |xs| && !xs[i].ignore then Some(i) else None
  }

  lemma NotedIsLive<T>(m: map<Key, nat>, id: TableID, xs: seq<Object<T>>, name: string)
    requires AgreesNamed(m, id, xs)
    ensures name != "" ==> Noted(m, id, xs, name) == LiveIndex(xs, name)
    ensures Noted(m, id, xs, name).Some? ==> xs[Noted(m, id, xs, name).value].name == name
    ensures Key(id, name) in m ==> m[Key(id, name)] < |xs|
  {
    if name != "" {
      assert At(m, Key(id, name)) == LastIndex(xs, name);
    }
  }

  lemma KeysSnoc(cs: seq<Constraint>, c: Constraint)
    ensures PkeyIndex(cs + [c]) == if c.def.constraintType == PrimaryKey then Some(|cs|) else PkeyIndex(cs)
    ensures FkeyIndexes(cs + [c]) == if c.def.constraintType == ForeignKey then FkeyIndexes(cs) + [|cs|]
        else FkeyIndexes(cs)
  {
    assert (cs + [c])[..|cs|] == cs;
  }

  function PkeysWith(pkeys: map<TableID, nat>, id: TableID, c: Constraint, i: nat): map<TableID, nat> {
    if c.def.constraintType == PrimaryKey then pkeys[id := i] else pkeys
  }

  function FkeysWith(fkeys: map<TableID, seq<nat>>, id: TableID, c: Constraint, i: nat): map<TableID, seq<nat>> {
    if c.def.constraintType == ForeignKey then fkeys[id := (if id in fkeys then fkeys[id] else []) + [i]] else fkeys
  }

  lemma KeysAgreeSnoc(pkeys: map<TableID, nat>, fkeys: map<TableID, seq<nat>>, id: TableID, cs: seq<Constraint>,
                      c: Constraint)
    requires KeysAgree(pkeys, fkeys, id, cs)
    ensures KeysAgree(PkeysWith(pkeys, id, c, |cs|), FkeysWith(fkeys, id, c, |cs|), id, cs + [c])
  {
    KeysSnoc(cs, c);
  }

  lemma KeysElsewhere(pkeys: map<TableID, nat>, fkeys: map<TableID, seq<nat>>, id: TableID, c: Constraint, i: nat)
    ensures SameTables(pkeys, PkeysWith(pkeys, id, c, i), id) && SameTables(fkeys, FkeysWith(fkeys, id, c, i), id)
  {
  }

  lemma KeysFrame(p: map<TableID, nat>, q: map<TableID, nat>, f: map<TableID, seq<nat>>, g: map<TableID, seq<nat>>,
                  id: TableID, other: TableID, cs: seq<Constraint>)
    requires SameTables(p, q, id) && SameTables(f, g, id) && other != id
    ensures KeysAgree(p, f, other, cs) ==> KeysAgree(q, g, other, cs)
  {
    assert At(p, other) == At(q, other) && At(f, other) == At(g, other);
  }

  // ----- all maps -----

  /** The maps about the objects of tables. */
  datatype Maps = Maps(
    columns: map<Key, nat>,
    indexes: map<Key, nat>,
    constraints: map<Key, nat>,
    pkeys: map<TableID, nat>,
    fkeys: map<TableID, seq<nat>>)

  /** The maps have the positions of everything in one table. */
  ghost predicate AllAgree(m: Maps, id: TableID, t: TableDef) {
    Listed(m, id, t) && KeysAgree(m.pkeys, m.fkeys, id, t.constraints)
  }

  /** They have the positions of everything by its name. */
  ghost predicate Listed(m: Maps, id: TableID, t: TableDef) {
    && Agrees(m.columns, id, t.columns) && Agrees(m.indexes, id, t.indexes)
    && AgreesNamed(m.constraints, id, t.constraints)
  }

  ghost predicate AllElsewhere(a: Maps, b: Maps, id: TableID) {
    && SameElsewhere(a.columns, b.columns, id) && SameElsewhere(a.indexes, b.indexes, id)
    && SameElsewhere(a.constraints, b.constraints, id) && SameTables(a.pkeys, b.pkeys, id)
       && SameTables(a.fkeys, b.fkeys, id)
  }

  /** The constraints and keys of other tables are where they were. */
  ghost predicate KeysSpared(a: Maps, b: Maps, id: TableID) {
    SameElsewhere(a.constraints, b.constraints, id) && SameTables(a.pkeys, b.pkeys, id)
        && SameTables(a.fkeys, b.fkeys, id)
  }

  lemma KeysSparedTwice(a: Maps, b: Maps, c: Maps, id: TableID)
    requires KeysSpared(a, b, id) && KeysSpared(b, c, id)
    ensures KeysSpared(a, c, id)
  {
    SameElsewhereTwice(a.constraints, b.constraints, c.constraints, id);
    SameTablesTwice(a.pkeys, b.pkeys, c.pkeys, id);
    SameTablesTwice(a.fkeys, b.fkeys, c.fkeys, id);
  }

  lemma ListedFrame(a: Maps, b: Maps, id: TableID, other: TableID, t: TableDef)
    requires AllElsewhere(a, b, id) && other != id && Listed(a, other, t)
    ensures Listed(b, other, t)
  {
    AgreesFrame(a.columns, b.columns, id, other, t.columns);
    AgreesFrame(a.indexes, b.indexes, id, other, t.indexes);
    AgreesFrame(a.constraints, b.constraints, id, other, t.constraints);
  }

  /** What is known about one table is not changed by what is learnt about another. */
  lemma AllAgreeFrame(a: Maps, b: Maps, id: TableID, other: TableID, t: TableDef)
    requires AllElsewhere(a, b, id) && other != id && AllAgree(a, other, t)
    ensures AllAgree(b, other, t)
  {
    ListedFrame(a, b, id, other, t);
    KeysFrame(a.pkeys, b.pkeys, a.fkeys, b.fkeys, id, other, t.constraints);
  }

  // ----- what upserts do -----

  /** The object can be found, and no other lookup changes. */
  lemma UpsertedFinds<T>(xs: seq<Object<T>>, x: Object<T>, n: string)
    ensures Find(Upserted(xs, x), n) == if n == x.name then if x.ignore then None else Some(x) else Find(xs, n)
  {
    FindByIndex(xs, n);
    FindByIndex(Upserted(xs, x), n);
    match LiveIndex(xs, x.name)
    case None => LastIndexSnoc(xs, x, n);
    case Some(i) =>
      LastIndexUpdate(xs, i, x, n);
  }
}
