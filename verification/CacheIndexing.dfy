/** What a new cache notes about a catalog: the positions in each list, a later list over an earlier one. */
module CacheIndexing {
  import opened Common
  import opened Catalogs
  import opened CachePositions

  const NO_TABLE := TableDef([], [], [])

  const NO_MAPS := Maps(map[], map[], map[], map[], map[])

  // ----- one list -----

  function Indexed<T>(m: map<Key, nat>, id: TableID, xs: seq<Object<T>>): map<Key, nat> {
    if xs == [] then m
    else Indexed(m, id, xs[..|xs| - 1])[Key(id, xs[|xs| - 1].name) := |xs| - 1]
  }

  function IndexedNamed<T>(m: map<Key, nat>, id: TableID, xs: seq<Object<T>>): map<Key, nat> {
    if xs == [] then m
    else NamesWith(IndexedNamed(m, id, xs[..|xs| - 1]), Key(id, xs[|xs| - 1].name), |xs| - 1)
  }

  function PkeysIndexed(m: map<TableID, nat>, id: TableID, cs: seq<Constraint>): map<TableID, nat> {
    if cs == [] then m else PkeysWith(PkeysIndexed(m, id, cs[..|cs| - 1]), id, cs[|cs| - 1], |cs| - 1)
  }

  function FkeysIndexed(m: map<TableID, seq<nat>>, id: TableID, cs: seq<Constraint>): map<TableID, seq<nat>> {
    if cs == [] then m else FkeysWith(FkeysIndexed(m, id, cs[..|cs| - 1]), id, cs[|cs| - 1], |cs| - 1)
  }

  function FkeysOf(m: map<TableID, seq<nat>>, id: TableID): seq<nat> {
    if id in m then m[id] else []
  }

  /** A name that the list does not have keeps the position that it had. */
  lemma {:induction false} IndexedAt<T>(m: map<Key, nat>, id: TableID, xs: seq<Object<T>>, k: Key)
    ensures At(Indexed(m, id, xs), k)
         == if k.table == id && LastIndex(xs, k.name).Some? then LastIndex(xs, k.name) else At(m, k)
  {
    if xs == [] {
    } else {
      IndexedAt(m, id, xs[..|xs| - 1], k);
    }
  }

  lemma {:induction false} IndexedNamedAt<T>(m: map<Key, nat>, id: TableID, xs: seq<Object<T>>, k: Key)
    ensures At(IndexedNamed(m, id, xs), k)
         == if k.table == id && k.name != "" && LastIndex(xs, k.name).Some? then LastIndex(xs, k.name) else At(m, k)
  {
    if xs == [] {
    } else {
      IndexedNamedAt(m, id, xs[..|xs| - 1], k);
    }
  }

  lemma {:induction false} PkeysAt(m: map<TableID, nat>, id: TableID, cs: seq<Constraint>, other: TableID)
    ensures At(PkeysIndexed(m, id, cs), other)
         == if other == id && PkeyIndex(cs).Some? then PkeyIndex(cs) else At(m, other)
  {
    if cs == [] {
    } else {
      PkeysAt(m, id, cs[..|cs| - 1], other);
    }
  }

  lemma {:induction false} FkeysAt(m: map<TableID, seq<nat>>, id: TableID, cs: seq<Constraint>, other: TableID)
    ensures FkeysOf(FkeysIndexed(m, id, cs), id) == FkeysOf(m, id) + FkeyIndexes(cs)
    ensures other != id ==> At(FkeysIndexed(m, id, cs), other) == At(m, other)
  {
    if cs == [] {
    } else {
      FkeysAt(m, id, cs[..|cs| - 1], other);
    }
  }

  // ----- one table -----

  function TableMaps(m: Maps, id: TableID, t: TableDef): Maps {
    Maps(Indexed(m.columns, id, t.columns), Indexed(m.indexes, id, t.indexes),
         IndexedNamed(m.constraints, id, t.constraints), PkeysIndexed(m.pkeys, id, t.constraints),
         FkeysIndexed(m.fkeys, id, t.constraints))
  }

  /** Every name that is noted is one of the list. */
  ghost predicate Has<T>(m: map<Key, nat>, id: TableID, xs: seq<Object<T>>) {
    forall n {:trigger Key(id, n)} {:trigger LastIndex(xs, n)} :: At(m, Key(id, n)).Some? ==> LastIndex(xs, n).Some?
  }

  ghost predicate HasNamed<T>(m: map<Key, nat>, id: TableID, xs: seq<Object<T>>) {
    && (forall n {:trigger Key(id, n)} {:trigger LastIndex(xs, n)} ::
          n != "" && At(m, Key(id, n)).Some? ==> LastIndex(xs, n).Some?)
    && NotesUnnamed(m, id, xs)
  }

  /** What is noted about a table before it is indexed is noted again, and there are no foreign keys. */
  ghost predicate Covered(m: Maps, id: TableID, t: TableDef) {
    && Has(m.columns, id, t.columns) && Has(m.indexes, id, t.indexes) && HasNamed(m.constraints, id, t.constraints)
    && (At(m.pkeys, id).Some? ==> PkeyIndex(t.constraints).Some?) && FkeysOf(m.fkeys, id) == []
  }

  lemma IndexedAgreesExactly<T>(m: map<Key, nat>, id: TableID, xs: seq<Object<T>>)
    ensures Agrees(Indexed(m, id, xs), id, xs) <==> Has(m, id, xs)
    ensures SameElsewhere(m, Indexed(m, id, xs), id)
  {
    forall k: Key
      ensures At(Indexed(m, id, xs), k)
           == if k.table == id && LastIndex(xs, k.name).Some? then LastIndex(xs, k.name) else At(m, k)
    {
      IndexedAt(m, id, xs, k);
    }
    if Agrees(Indexed(m, id, xs), id, xs) {
      forall n | At(m, Key(id, n)).Some? ensures LastIndex(xs, n).Some? {
        assert At(Indexed(m, id, xs), Key(id, n)) == LastIndex(xs, n);
      }
    }
  }

  lemma IndexedNamedAgreesExactly<T>(m: map<Key, nat>, id: TableID, xs: seq<Object<T>>)
    ensures AgreesNamed(IndexedNamed(m, id, xs), id, xs) <==> HasNamed(m, id, xs)
    ensures SameElsewhere(m, IndexedNamed(m, id, xs), id)
  {
    var after := IndexedNamed(m, id, xs);
    forall k: Key
      ensures At(after, k)
           == if k.table == id && k.name != "" && LastIndex(xs, k.name).Some? then LastIndex(xs, k.name) else At(m, k)
    {
      IndexedNamedAt(m, id, xs, k);
    }
    assert At(after, Key(id, "")) == At(m, Key(id, ""));
    if AgreesNamed(after, id, xs) {
      forall n | n != "" && At(m, Key(id, n)).Some? ensures LastIndex(xs, n).Some? {
        assert At(after, Key(id, n)) == LastIndex(xs, n);
      }
    }
  }

  lemma KeysIndexedAgreeExactly(p: map<TableID, nat>, f: map<TableID, seq<nat>>, id: TableID, cs: seq<Constraint>)
    ensures KeysAgree(PkeysIndexed(p, id, cs), FkeysIndexed(f, id, cs), id, cs)
       <==> (At(p, id).Some? ==> PkeyIndex(cs).Some?) && FkeysOf(f, id) == []
    ensures SameTables(p, PkeysIndexed(p, id, cs), id) && SameTables(f, FkeysIndexed(f, id, cs), id)
  {
    forall other: TableID
      ensures At(PkeysIndexed(p, id, cs), other)
           == if other == id && PkeyIndex(cs).Some? then PkeyIndex(cs) else At(p, other)
      ensures other != id ==> At(FkeysIndexed(f, id, cs), other) == At(f, other)
    {
      PkeysAt(p, id, cs, other);
      FkeysAt(f, id, cs, other);
    }
    FkeysAt(f, id, cs, id);
    assert |FkeysOf(f, id) + FkeyIndexes(cs)| == |FkeyIndexes(cs)| ==> FkeysOf(f, id) == [];
  }

  /** The positions of a table are right once it is indexed exactly if everything noted about it before is noted again;
      those of other tables stay. */
  lemma TableKnownExactly(m: Maps, id: TableID, t: TableDef)
    ensures AllAgree(TableMaps(m, id, t), id, t) <==> Covered(m, id, t)
    ensures AllElsewhere(m, TableMaps(m, id, t), id)
  {
    IndexedAgreesExactly(m.columns, id, t.columns);
    IndexedAgreesExactly(m.indexes, id, t.indexes);
    IndexedNamedAgreesExactly(m.constraints, id, t.constraints);
    KeysIndexedAgreeExactly(m.pkeys, m.fkeys, id, t.constraints);
  }

  /** Nothing is noted about the table. */
  ghost predicate Unknown(m: Maps, id: TableID) {
    AllAgree(m, id, NO_TABLE)
  }

  lemma UnknownIsCovered(m: Maps, id: TableID, t: TableDef)
    requires Unknown(m, id)
    ensures Covered(m, id, t)
  {
    forall n ensures At(m.columns, Key(id, n)) == None && At(m.indexes, Key(id, n)) == None
      && At(m.constraints, Key(id, n)) == None
    {
      assert LastIndex(NO_TABLE.columns, n) == None && LastIndex(NO_TABLE.indexes, n) == None;
      assert LastIndex(NO_TABLE.constraints, n) == None;
    }
  }

  // ----- the tables of a schema -----

  /** What the last table of a name has, ignored or not. */
  function RawDef(ts: seq<Table>, name: string): TableDef {
    match LastIndex(ts, name)
    case None => NO_TABLE
    case Some(i) => ts[i].def
  }

  /** What a table has, nothing if there is none that is not ignored. */
  function DefOf(ts: seq<Table>, name: string): TableDef {
    LiveDef(ts, name).UnwrapOr(NO_TABLE)
  }

  /** The positions of everything in the tables of a schema are right, in ignored tables too. */
  ghost predicate AllKnownRaw(m: Maps, schema: string, ts: seq<Table>) {
    forall n {:trigger RawDef(ts, n)} {:trigger TableID(schema, n)} :: AllAgree(m, TableID(schema, n), RawDef(ts, n))
  }

  /** The positions of everything in the tables of a schema are right, and nothing is noted under other names. */
  ghost predicate AllKnown(m: Maps, schema: string, ts: seq<Table>) {
    forall n {:trigger DefOf(ts, n)} {:trigger TableID(schema, n)} :: AllAgree(m, TableID(schema, n), DefOf(ts, n))
  }

  /** There is nothing in the table that is noted anywhere. */
  ghost predicate Blank(t: TableDef) {
    && t.columns == [] && t.indexes == [] && PkeyIndex(t.constraints) == None && FkeyIndexes(t.constraints) == []
    && forall k :: 0 <= k < |t.constraints| ==> t.constraints[k].name == ""
  }

  lemma {:induction false} NamedIsThere<T>(xs: seq<Object<T>>, k: nat)
    requires k < |xs|
    ensures LastIndex(xs, xs[k].name).Some?
  {
    if k == |xs| - 1 {
    } else {
      NamedIsThere(xs[..|xs| - 1], k);
    }
  }

  /** A list is empty exactly if nothing is found in it. */
  lemma EmptyExactly<T>(xs: seq<Object<T>>)
    ensures xs == [] <==> forall n {:trigger LastIndex(xs, n)} :: LastIndex(xs, n) == None
  {
    if xs != [] {
      NamedIsThere(xs, 0);
    }
  }

  /** A list has no names exactly if nothing is found in it by a name. */
  lemma UnnamedExactly<T>(xs: seq<Object<T>>)
    ensures (forall k :: 0 <= k < |xs| ==> xs[k].name == "") <==>
            forall n {:trigger LastIndex(xs, n)} :: n != "" ==> LastIndex(xs, n) == None
  {
    if forall k :: 0 <= k < |xs| ==> xs[k].name == "" {
      forall n | n != "" ensures LastIndex(xs, n) == None {
        NotThere(xs, n);
      }
    } else {
      var k :| 0 <= k < |xs| && xs[k].name != "";
      NamedIsThere(xs, k);
    }
  }

  lemma NoneNotedExactly<T>(m: map<Key, nat>, id: TableID, xs: seq<Object<T>>)
    requires Agrees(m, id, xs)
    ensures Agrees<T>(m, id, []) <==> xs == []
  {
    EmptyExactly(xs);
    forall n ensures At(m, Key(id, n)) == LastIndex(xs, n) && LastIndex<T>([], n) == None {
    }
  }

  lemma NoNameNotedExactly<T>(m: map<Key, nat>, id: TableID, xs: seq<Object<T>>)
    requires AgreesNamed(m, id, xs)
    ensures AgreesNamed<T>(m, id, []) <==>
            (forall k :: 0 <= k < |xs| ==> xs[k].name == "") && At(m, Key(id, "")) == None
  {
    UnnamedExactly(xs);
    forall n | n != "" ensures At(m, Key(id, n)) == LastIndex(xs, n) && LastIndex<T>([], n) == None {
    }
  }

  /** If a table is made anew, with nothing in it, lookups are right exactly if the old one had nothing that is
      noted. */
  lemma RemadeIsUnknownExactly(m: Maps, id: TableID, t: TableDef)
    requires AllAgree(m, id, t)
    ensures Unknown(m, id) <==> Blank(t) && At(m.constraints, Key(id, "")) == None
  {
    NoneNotedExactly(m.columns, id, t.columns);
    NoneNotedExactly(m.indexes, id, t.indexes);
    NoNameNotedExactly(m.constraints, id, t.constraints);
  }

  /** The same objects, by name, in the same places. */
  ghost predicate SameNames<T>(xs: seq<Object<T>>, ys: seq<Object<T>>) {
    |xs| == |ys| && forall k :: 0 <= k < |xs| ==> xs[k].name == ys[k].name
  }

  lemma {:induction false} SameNamesFound<T>(xs: seq<Object<T>>, ys: seq<Object<T>>, n: string)
    requires SameNames(xs, ys)
    ensures LastIndex(xs, n) == LastIndex(ys, n)
  {
    if xs == [] {
    } else {
      SameNamesFound(xs[..|xs| - 1], ys[..|ys| - 1], n);
    }
  }

  lemma {:induction false} FoundAt<T>(xs: seq<Object<T>>, k: nat)
    requires UniqueNames(xs) && k < |xs|
    ensures LastIndex(xs, xs[k].name) == Some(k)
  {
    if k == |xs| - 1 {
    } else {
      FoundAt(xs[..|xs| - 1], k);
    }
  }

  /** Whether positions that are right for one list are right for another. */
  lemma ReplacedAgreesExactly<T>(m: map<Key, nat>, id: TableID, was: seq<Object<T>>, now: seq<Object<T>>)
    requires UniqueNames(was) && UniqueNames(now)
    ensures Agrees(m, id, was) ==> (Agrees(m, id, now) <==> SameNames(was, now))
  {
    if Agrees(m, id, was) && SameNames(was, now) {
      forall n ensures At(m, Key(id, n)) == LastIndex(now, n) {
        SameNamesFound(was, now, n);
      }
    }
    if Agrees(m, id, was) && Agrees(m, id, now) {
      NotLonger(m, id, was, now);
      NotLonger(m, id, now, was);
      forall k | 0 <= k < |was| ensures now[k].name == was[k].name {
        FoundAt(was, k);
        assert At(m, Key(id, was[k].name)) == LastIndex(now, was[k].name);
      }
    }
  }

  lemma NotLonger<T>(m: map<Key, nat>, id: TableID, xs: seq<Object<T>>, ys: seq<Object<T>>)
    requires UniqueNames(xs) && Agrees(m, id, xs) && Agrees(m, id, ys)
    ensures |xs| <= |ys|
  {
    if xs != [] {
      FoundAt(xs, |xs| - 1);
      assert At(m, Key(id, xs[|xs| - 1].name)) == LastIndex(ys, xs[|xs| - 1].name);
    }
  }

  /** AddOrUpdateTable replaces a table with its lists, of whose positions it takes no note: columns and indexes are
      found afterwards exactly if the new lists have the names of the old ones, in order. */
  lemma ReplacedIsKnownExactly(m: Maps, id: TableID, was: TableDef, now: TableDef)
    requires Agrees(m.columns, id, was.columns) && Agrees(m.indexes, id, was.indexes)
    requires UniqueNames(was.columns) && UniqueNames(now.columns)
    requires UniqueNames(was.indexes) && UniqueNames(now.indexes)
    ensures Agrees(m.columns, id, now.columns) && Agrees(m.indexes, id, now.indexes) <==>
            SameNames(was.columns, now.columns) && SameNames(was.indexes, now.indexes)
  {
    ReplacedAgreesExactly(m.columns, id, was.columns, now.columns);
    ReplacedAgreesExactly(m.indexes, id, was.indexes, now.indexes);
  }

  /** GetOrCreateColumn indexes the list of the table with the position noted, wherever it comes from. */
  predicate IndexesOutside<T>(m: map<Key, nat>, id: TableID, xs: seq<Object<T>>, name: string) {
    Key(id, name) in m && m[Key(id, name)] >= |xs|
  }

  /** A column of the old table makes the next one in the new table panic. */
  lemma RemadePanics(m: Maps, id: TableID, t: TableDef, k: nat)
    requires AllAgree(m, id, t) && k < |t.columns|
    ensures IndexesOutside<ColumnDef>(m.columns, id, [], t.columns[k].name)
  {
    NamedIsThere(t.columns, k);
    assert At(m.columns, Key(id, t.columns[k].name)) == LastIndex(t.columns, t.columns[k].name);
  }

  /** What is in force for a schema with ignored tables: exactly if these have nothing that is noted. */
  lemma AllKnownExactly(m: Maps, schema: string, ts: seq<Table>)
    requires AllKnownRaw(m, schema, ts)
    ensures AllKnown(m, schema, ts) <==>
            forall n {:trigger RawDef(ts, n)} :: Remakes(ts, n) ==>
              Blank(RawDef(ts, n)) && At(m.constraints, Key(TableID(schema, n), "")) == None
  {
    forall n
      ensures AllAgree(m, TableID(schema, n), DefOf(ts, n)) <==>
              (Remakes(ts, n) ==> Blank(RawDef(ts, n)) && At(m.constraints, Key(TableID(schema, n), "")) == None)
    {
      assert AllAgree(m, TableID(schema, n), RawDef(ts, n));
      RemadeIsUnknownExactly(m, TableID(schema, n), RawDef(ts, n));
    }
  }

  /** A table that is made, with nothing in it, is known if all that can be found was. */
  lemma MadeIsKnown(m: Maps, schema: string, ts: seq<Table>, name: string)
    requires AllKnown(m, schema, ts) && LiveIndex(ts, name) == None
    ensures AllKnown(m, schema, ts + [Object(name, false, NO_TABLE)])
  {
    var after := ts + [Object(name, false, NO_TABLE)];
    forall n ensures AllAgree(m, TableID(schema, n), DefOf(after, n)) {
      LastIndexSnoc(ts, Object(name, false, NO_TABLE), n);
      assert DefOf(after, n) == DefOf(ts, n);
      assert AllAgree(m, TableID(schema, n), DefOf(ts, n));
    }
  }

  /** The last table of the name is ignored, so that another would be made. */
  predicate Remakes(ts: seq<Table>, name: string) {
    LastIndex(ts, name).Some? && ts[LastIndex(ts, name).value].ignore
  }

  function TablesMaps(m: Maps, schema: string, ts: seq<Table>): Maps {
    if ts == [] then m
    else
      var t := ts[|ts| - 1];
      TableMaps(TablesMaps(m, schema, ts[..|ts| - 1]), TableID(schema, t.name), t.def)
  }

  function PlacedIn<T>(m: map<TableID, nat>, schema: string, ts: seq<Object<T>>): map<TableID, nat> {
    if ts == [] then m else PlacedIn(m, schema, ts[..|ts| - 1])[TableID(schema, ts[|ts| - 1].name) := |ts| - 1]
  }

  lemma {:induction false} PlacedInAt<T>(m: map<TableID, nat>, schema: string, ts: seq<Object<T>>, id: TableID)
    ensures At(PlacedIn(m, schema, ts), id)
         == if id.schema == schema && LastIndex(ts, id.name).Some? then LastIndex(ts, id.name) else At(m, id)
  {
    if ts == [] {
    } else {
      PlacedInAt(m, schema, ts[..|ts| - 1], id);
    }
  }

  /** Other schemas are not affected. */
  ghost predicate OtherSchemas(a: Maps, b: Maps, schema: string) {
    forall id: TableID, t {:trigger AllAgree(b, id, t)} :: id.schema != schema && AllAgree(a, id, t) ==>
        AllAgree(b, id, t)
  }

  /** Tables with different names are all known. */
  lemma {:induction false} TablesKnown(m: Maps, schema: string, ts: seq<Table>)
    requires UniqueNames(ts) && forall n :: Unknown(m, TableID(schema, n))
    ensures AllKnownRaw(TablesMaps(m, schema, ts), schema, ts) && OtherSchemas(m, TablesMaps(m, schema, ts), schema)
  {
    if ts == [] {
    } else {
      var init, t := ts[..|ts| - 1], ts[|ts| - 1];
      var before, id := TablesMaps(m, schema, init), TableID(schema, t.name);
      TablesKnown(m, schema, init);
      NotThere(init, t.name);
      assert AllAgree(before, id, RawDef(init, t.name));
      UnknownIsCovered(before, id, t.def);
      TableKnownExactly(before, id, t.def);
      OneMoreKnown(m, before, TableMaps(before, id, t.def), schema, ts);
    }
  }

  lemma OneMoreKnown(m: Maps, before: Maps, after: Maps, schema: string, ts: seq<Table>)
    requires ts != [] && AllKnownRaw(before, schema, ts[..|ts| - 1]) && OtherSchemas(m, before, schema)
    requires AllAgree(after, TableID(schema, ts[|ts| - 1].name), ts[|ts| - 1].def)
    requires AllElsewhere(before, after, TableID(schema, ts[|ts| - 1].name))
    ensures AllKnownRaw(after, schema, ts) && OtherSchemas(m, after, schema)
  {
    var init, id := ts[..|ts| - 1], TableID(schema, ts[|ts| - 1].name);
    forall n ensures AllAgree(after, TableID(schema, n), RawDef(ts, n)) {
      if n != id.name {
        assert RawDef(ts, n) == RawDef(init, n);
        AllAgreeFrame(before, after, id, TableID(schema, n), RawDef(init, n));
      }
    }
    OthersStay(m, before, after, id);
  }

  lemma OthersStay(m: Maps, before: Maps, after: Maps, id: TableID)
    requires OtherSchemas(m, before, id.schema) && AllElsewhere(before, after, id)
    ensures OtherSchemas(m, after, id.schema)
  {
    forall other: TableID, t | other.schema != id.schema && AllAgree(m, other, t) ensures AllAgree(after, other, t) {
      AllAgreeFrame(before, after, id, other, t);
    }
  }

  lemma {:induction false} NotThere<T>(xs: seq<Object<T>>, name: string)
    requires forall k :: 0 <= k < |xs| ==> xs[k].name != name
    ensures LastIndex(xs, name) == None
  {
    if xs == [] {
    } else {
      NotThere(xs[..|xs| - 1], name);
    }
  }

  // ----- a catalog -----

  /** The tables of the last schema of a name. */
  function RawTables(cat: seq<Schema>, name: string): seq<Table> {
    match LastIndex(cat, name)
    case None => []
    case Some(i) => cat[i].def
  }

  function CatalogMaps(m: Maps, cat: seq<Schema>): Maps {
    if cat == [] then m
    else TablesMaps(CatalogMaps(m, cat[..|cat| - 1]), cat[|cat| - 1].name, cat[|cat| - 1].def)
  }

  function CatalogPlaced(m: map<TableID, nat>, cat: seq<Schema>): map<TableID, nat> {
    if cat == [] then m
    else PlacedIn(CatalogPlaced(m, cat[..|cat| - 1]), cat[|cat| - 1].name, cat[|cat| - 1].def)
  }

  function SchemasPlaced(m: map<string, nat>, cat: seq<Schema>): map<string, nat> {
    if cat == [] then m else SchemasPlaced(m, cat[..|cat| - 1])[cat[|cat| - 1].name := |cat| - 1]
  }

  /** The positions of schemas are right. */
  ghost predicate SchemasKnown(m: map<string, nat>, cat: seq<Schema>) {
    forall n {:trigger LastIndex(cat, n)} :: At(m, n) == LastIndex(cat, n)
  }

  /** The positions of tables are right, in every schema; there are none in schemas that are not there. */
  ghost predicate TablesPlaced(m: map<TableID, nat>, cat: seq<Schema>) {
    forall s {:trigger RawTables(cat, s)} :: Placed(m, s, RawTables(cat, s))
  }

  /** The positions of all that is in tables are right. */
  ghost predicate ListsKnown(m: Maps, cat: seq<Schema>) {
    forall s {:trigger RawTables(cat, s)} :: AllKnownRaw(m, s, RawTables(cat, s))
  }

  lemma {:induction false} SchemasAreKnown(cat: seq<Schema>, n: string)
    ensures At(SchemasPlaced(map[], cat), n) == LastIndex(cat, n)
  {
    if cat == [] {
    } else {
      SchemasAreKnown(cat[..|cat| - 1], n);
    }
  }

  lemma {:induction false} TablesArePlaced(cat: seq<Schema>)
    requires UniqueNames(cat)
    ensures TablesPlaced(CatalogPlaced(map[], cat), cat)
  {
    if cat == [] {
    } else {
      var init, s := cat[..|cat| - 1], cat[|cat| - 1];
      TablesArePlaced(init);
      NotThere(init, s.name);
      OneMorePlaced(CatalogPlaced(map[], init), cat);
    }
  }

  lemma OneMorePlaced(before: map<TableID, nat>, cat: seq<Schema>)
    requires cat != [] && TablesPlaced(before, cat[..|cat| - 1])
    requires LastIndex(cat[..|cat| - 1], cat[|cat| - 1].name) == None
    ensures TablesPlaced(PlacedIn(before, cat[|cat| - 1].name, cat[|cat| - 1].def), cat)
  {
    var init, s := cat[..|cat| - 1], cat[|cat| - 1];
    var after := PlacedIn(before, s.name, s.def);
    forall other, n ensures At(after, TableID(other, n)) == LastIndex(RawTables(cat, other), n) {
      PlacedInAt(before, s.name, s.def, TableID(other, n));
      assert Placed(before, other, RawTables(init, other));
      assert At(before, TableID(other, n)) == LastIndex(RawTables(init, other), n);
    }
  }

  lemma {:induction false} ListsAreKnown(cat: seq<Schema>)
    requires UniqueNames(cat) && forall k :: 0 <= k < |cat| ==> UniqueNames(cat[k].def)
    ensures ListsKnown(CatalogMaps(NO_MAPS, cat), cat)
  {
    if cat == [] {
    } else {
      var init := cat[..|cat| - 1];
      ListsAreKnown(init);
      NotThere(init, cat[|cat| - 1].name);
      OneMoreListed(CatalogMaps(NO_MAPS, init), cat);
    }
  }

  lemma OneMoreListed(before: Maps, cat: seq<Schema>)
    requires cat != [] && ListsKnown(before, cat[..|cat| - 1]) && UniqueNames(cat[|cat| - 1].def)
    requires LastIndex(cat[..|cat| - 1], cat[|cat| - 1].name) == None
    ensures ListsKnown(TablesMaps(before, cat[|cat| - 1].name, cat[|cat| - 1].def), cat)
  {
    var init, s := cat[..|cat| - 1], cat[|cat| - 1];
    var after := TablesMaps(before, s.name, s.def);
    assert AllKnownRaw(before, s.name, RawTables(init, s.name));
    NoTablesKnown(before, s.name);
    TablesKnown(before, s.name, s.def);
    forall other ensures AllKnownRaw(after, other, RawTables(cat, other)) {
      if other != s.name {
        OtherListed(before, after, s.name, other, RawTables(init, other));
      }
    }
  }

  lemma NoTablesKnown(m: Maps, schema: string)
    requires AllKnownRaw(m, schema, [])
    ensures forall n :: Unknown(m, TableID(schema, n))
  {
    forall n ensures Unknown(m, TableID(schema, n)) {
      assert AllAgree(m, TableID(schema, n), RawDef([], n));
    }
  }

  lemma OtherListed(before: Maps, after: Maps, schema: string, other: string, ts: seq<Table>)
    requires AllKnownRaw(before, other, ts) && OtherSchemas(before, after, schema) && other != schema
    ensures AllKnownRaw(after, other, ts)
  {
    forall n ensures AllAgree(after, TableID(other, n), RawDef(ts, n)) {
      assert AllAgree(before, TableID(other, n), RawDef(ts, n));
    }
  }

  // ----- constraints without names -----

  lemma {:induction false} UnnamedInTables(m: Maps, schema: string, ts: seq<Table>, id: TableID)
    ensures At(TablesMaps(m, schema, ts).constraints, Key(id, "")) == At(m.constraints, Key(id, ""))
  {
    if ts == [] {
    } else {
      var init, t := ts[..|ts| - 1], ts[|ts| - 1];
      UnnamedInTables(m, schema, init, id);
      var before := TablesMaps(m, schema, init);
      IndexedNamedAt(before.constraints, TableID(schema, t.name), t.def.constraints, Key(id, ""));
    }
  }

  /** A new cache has noted no constraint without a name. */
  lemma {:induction false} UnnamedInCatalog(cat: seq<Schema>, id: TableID)
    ensures At(CatalogMaps(NO_MAPS, cat).constraints, Key(id, "")) == None
  {
    if cat == [] {
    } else {
      UnnamedInCatalog(cat[..|cat| - 1], id);
      UnnamedInTables(CatalogMaps(NO_MAPS, cat[..|cat| - 1]), cat[|cat| - 1].name, cat[|cat| - 1].def, id);
    }
  }
}
