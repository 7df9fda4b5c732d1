/** What the stages of tables come to, compared with the direct changes that they stand for. */
module PostgresRefinement {
  import opened Common
  import opened PostgresTables
  import opened PostgresStages
  import opened PostgresColumns

  // ----- keys -----

  /** The keys, none of them deferrable. */
  function Undeferred(ks: seq<NewKey>): seq<NewKey>
    decreases |ks|
  {
    if ks == [] then [] else [ks[0].(timing := NotDeferrable)] + Undeferred(ks[1..])
  }

  predicate AllImmediate(ks: seq<NewKey>)
    decreases |ks|
  {
    ks == [] || (ks[0].timing == NotDeferrable && AllImmediate(ks[1..]))
  }

  lemma {:induction false} ImmediateAreSame(ks: seq<NewKey>)
    requires AllImmediate(ks)
    ensures Undeferred(ks) == ks
    decreases |ks|
  {
    if ks == [] {
    } else {
      ImmediateAreSame(ks[1..]);
      assert [ks[0]] + ks[1..] == ks;
    }
  }

  /** A unique index that a key then takes over is that key, but never a deferrable one. */
  lemma KeyThroughIndex(t: Table, k: NewKey)
    ensures ApplyEdits(t, [CreateIndex(k.name, Index(true, k.columns)), AddKeyUsingIndex(k.name, k.keyType)])
         == ApplyEdit(t, AddKey(k.name, k.keyType, k.columns, NotDeferrable))
  {
    var create, add := CreateIndex(k.name, Index(true, k.columns)), AddKeyUsingIndex(k.name, k.keyType);
    ApplyTwo(t, create, add);
    match ApplyEdit(t, create)
    case None =>
    case Some(after) =>
      assert after.indexes - {k.name} == t.indexes;
      assert after.(indexes := after.indexes - {k.name}) == t;
  }

  lemma {:induction false} KeysThroughIndexesAre(t: Table, ks: seq<NewKey>)
    ensures ApplyEdits(t, KeysThroughIndexes(ks)) == ApplyEdits(t, AddKeys(Undeferred(ks)))
    decreases |ks|
  {
    if ks == [] {
    } else {
      var k, rest := ks[0], Undeferred(ks[1..]);
      KeyThroughIndex(t, k);
      EditsConcat(t, [CreateIndex(k.name, Index(true, k.columns)), AddKeyUsingIndex(k.name, k.keyType)],
                  KeysThroughIndexes(ks[1..]));
      assert Undeferred(ks)[1..] == rest && AddKeys(Undeferred(ks))[1..] == AddKeys(rest);
      match ApplyEdit(t, AddKey(k.name, k.keyType, k.columns, NotDeferrable))
      case None =>
      case Some(after) => KeysThroughIndexesAre(after, ks[1..]);
    }
  }

  // ----- when keys are deferrable -----

  function Untimed(c: Constraint): Constraint {
    if c.Key? then c.(timing := NotDeferrable) else c
  }

  /** The tables differ at most in the timing of keys. */
  ghost predicate SameButTiming(t: Table, u: Table) {
    && t.columns == u.columns && t.indexes == u.indexes && t.rows == u.rows && t.constraints.Keys == u.constraints.Keys
    && forall n :: n in t.constraints ==> Untimed(t.constraints[n]) == Untimed(u.constraints[n])
  }

  lemma SamePrimaryKey(t: Table, u: Table)
    requires SameButTiming(t, u)
    ensures HasPrimaryKey(t) == HasPrimaryKey(u)
  {
    if n :| n in t.constraints && t.constraints[n].Key? && t.constraints[n].keyType == PrimaryKey {
      assert Untimed(t.constraints[n]) == Untimed(u.constraints[n]);
      assert n in u.constraints && u.constraints[n].Key? && u.constraints[n].keyType == PrimaryKey;
    }
    if n :| n in u.constraints && u.constraints[n].Key? && u.constraints[n].keyType == PrimaryKey {
      assert Untimed(t.constraints[n]) == Untimed(u.constraints[n]);
      assert n in t.constraints && t.constraints[n].Key? && t.constraints[n].keyType == PrimaryKey;
    }
  }

  /** Timing does not decide whether a key can be added. */
  lemma SameKeyAdded(t: Table, u: Table, k: NewKey, timing: Timing)
    requires SameButTiming(t, u)
    ensures var r, s := ApplyEdit(t, AddKey(k.name, k.keyType, k.columns, k.timing)),
                        ApplyEdit(u, AddKey(k.name, k.keyType, k.columns, timing));
            (r.Some? <==> s.Some?) && (r.Some? ==> SameButTiming(r.value, s.value))
  {
    SamePrimaryKey(t, u);
    assert k.name in t.constraints ==> Untimed(t.constraints[k.name]) == Untimed(u.constraints[k.name]);
    assert FreeForIndex(t, k.name) == FreeForIndex(u, k.name) && AnyNull(t, k.columns) == AnyNull(u, k.columns);
    assert HasDuplicates(t, k.columns) == HasDuplicates(u, k.columns);
  }

  lemma {:induction false} SameKeysAdded(t: Table, u: Table, ks: seq<NewKey>)
    requires SameButTiming(t, u)
    ensures var r, s := ApplyEdits(t, AddKeys(ks)), ApplyEdits(u, AddKeys(Undeferred(ks)));
            (r.Some? <==> s.Some?) && (r.Some? ==> SameButTiming(r.value, s.value))
    decreases |ks|
  {
    if ks == [] {
    } else {
      var k, rest := ks[0], Undeferred(ks[1..]);
      SameKeyAdded(t, u, k, NotDeferrable);
      assert AddKeys(ks)[1..] == AddKeys(ks[1..]);
      assert Undeferred(ks)[1..] == rest && AddKeys(Undeferred(ks))[1..] == AddKeys(rest);
      match ApplyEdit(t, AddKey(k.name, k.keyType, k.columns, k.timing))
      case None =>
      case Some(after) =>
        SameKeysAdded(after, ApplyEdit(u, AddKey(k.name, k.keyType, k.columns, NotDeferrable)).value, ks[1..]);
    }
  }

  lemma {:induction false} KeysAreKept(t: Table, ks: seq<NewKey>, n: string)
    requires n in t.constraints && ApplyEdits(t, AddKeys(ks)).Some?
    ensures var r := ApplyEdits(t, AddKeys(ks)).value; n in r.constraints && r.constraints[n] == t.constraints[n]
    decreases |ks|
  {
    if ks == [] {
    } else {
      assert AddKeys(ks)[1..] == AddKeys(ks[1..]);
      KeysAreKept(ApplyEdit(t, AddKeys(ks)[0]).value, ks[1..], n);
    }
  }

  /** Every key that is added is there in the end, with its timing. */
  lemma {:induction false} DeferrableIsThere(t: Table, ks: seq<NewKey>) returns (n: string, k: NewKey)
    requires ApplyEdits(t, AddKeys(ks)).Some? && !AllImmediate(ks)
    ensures k.timing != NotDeferrable
    ensures var r := ApplyEdits(t, AddKeys(ks)).value;
            n in r.constraints && r.constraints[n] == Key(k.keyType, k.columns, k.timing)
    ensures var s := ApplyEdits(t, AddKeys(Undeferred(ks)));
            s.Some? ==> n in s.value.constraints && s.value.constraints[n] == Key(k.keyType, k.columns, NotDeferrable)
    decreases |ks|
  {
    n, k := DeferrableIsThereIn(t, t, ks);
  }

  lemma {:induction false} DeferrableIsThereIn(t: Table, u: Table, ks: seq<NewKey>) returns (n: string, k: NewKey)
    requires ApplyEdits(t, AddKeys(ks)).Some? && !AllImmediate(ks)
    ensures k.timing != NotDeferrable
    ensures var r := ApplyEdits(t, AddKeys(ks)).value;
            n in r.constraints && r.constraints[n] == Key(k.keyType, k.columns, k.timing)
    ensures var s := ApplyEdits(u, AddKeys(Undeferred(ks)));
            s.Some? ==> n in s.value.constraints && s.value.constraints[n] == Key(k.keyType, k.columns, NotDeferrable)
    decreases |ks|
  {
    var first, rest := ks[0], Undeferred(ks[1..]);
    assert AddKeys(ks)[1..] == AddKeys(ks[1..]);
    assert Undeferred(ks)[1..] == rest && AddKeys(Undeferred(ks))[1..] == AddKeys(rest);
    var after := ApplyEdit(t, AddKeys(ks)[0]).value;
    var undeferred := AddKey(first.name, first.keyType, first.columns, NotDeferrable);
    if first.timing != NotDeferrable {
      n, k := first.name, first;
      KeysAreKept(after, ks[1..], n);
      if ApplyEdits(u, AddKeys(Undeferred(ks))).Some? {
        KeysAreKept(ApplyEdit(u, undeferred).value, rest, n);
      }
    } else {
      match ApplyEdit(u, undeferred)
      case None => n, k := DeferrableIsThereIn(after, u, ks[1..]);
      case Some(v) => n, k := DeferrableIsThereIn(after, v, ks[1..]);
    }
  }

  /** Keys that are added through indexes are those that are asked for exactly if none of them is deferrable. */
  lemma KeysInStagesExactly(t: Table, ks: seq<NewKey>)
    ensures var r, s := ApplyEdits(t, KeysThroughIndexes(ks)), ApplyEdits(t, AddKeys(ks));
            && (r.Some? <==> s.Some?)
            && (s.Some? ==> SameButTiming(s.value, r.value))
            && (s.Some? ==> (r == s <==> AllImmediate(ks)))
  {
    KeysThroughIndexesAre(t, ks);
    SameKeysAdded(t, t, ks);
    if AllImmediate(ks) {
      ImmediateAreSame(ks);
    } else if ApplyEdits(t, AddKeys(ks)).Some? {
      var n, k := DeferrableIsThere(t, ks);
    }
  }

  // ----- a table -----

  /** What the planner makes of a table: each column once, and those that lose their nulls listed for validation. */
  ghost predicate Planned(version: nat, t: Table, a: AlterTable) {
    && DistinctNames(a.alterColumns) && FitsSource(t, a.alterColumns)
    && a.validateNotNull == Validated(version, a.alterColumns)
  }

  /** The stages of a table work exactly where the direct changes do and the stages of its columns fit; then they come
      to the same, exactly if no key is deferrable. */
  lemma TableInStagesExactly(version: nat, t: Table, a: AlterTable)
    requires Planned(version, t, a)
    ensures var r, s := ApplyEdits(t, InStages(version, a)), ApplyEdits(t, Directly(a));
            && (r.Some? <==> s.Some? && ColumnsFit(version, t, a.table, a.alterColumns))
            && (r.Some? ==> SameButTiming(s.value, r.value))
            && (r.Some? ==> (r == s <==> AllImmediate(a.addKeys)))
  {
    var columns := ColumnEdits(version >= 12, a.table, a.alterColumns) + ValidateChecks(a.table, a.validateNotNull);
    var indexes, keys := CreateIndexes(a.createIndexes), KeysThroughIndexes(a.addKeys);
    var direct := ColumnEdits(false, a.table, a.alterColumns);
    ColumnsInStages(version, t, a.table, a.alterColumns);
    EditsConcat(t, columns, indexes);
    EditsConcat(t, columns + indexes, keys);
    EditsConcat(t, direct, indexes);
    EditsConcat(t, direct + indexes, AddKeys(a.addKeys));
    if ColumnsFit(version, t, a.table, a.alterColumns) {
      match ApplyEdits(t, direct + indexes)
      case None =>
      case Some(mid) => KeysInStagesExactly(mid, a.addKeys);
    }
  }

  // ----- all tables -----

  ghost predicate AllPlanned(version: nat, db: Database, alters: seq<AlterTable>) {
    forall i :: 0 <= i < |alters| ==> alters[i].table in db && Planned(version, db[alters[i].table], alters[i])
  }

  ghost predicate DistinctTables(alters: seq<AlterTable>) {
    forall i, k :: 0 <= i < k < |alters| ==> alters[i].table != alters[k].table
  }

  predicate AllFit(version: nat, db: Database, alters: seq<AlterTable>)
    requires forall i :: 0 <= i < |alters| ==> alters[i].table in db
    decreases |alters|
  {
    alters == [] || (
      && ColumnsFit(version, db[alters[0].table], alters[0].table, alters[0].alterColumns)
      && AllFit(version, db, alters[1..]))
  }

  predicate NoneDeferrable(alters: seq<AlterTable>)
    decreases |alters|
  {
    alters == [] || (AllImmediate(alters[0].addKeys) && NoneDeferrable(alters[1..]))
  }

  /** The databases have the same tables for some changes. */
  ghost predicate AgreeOn(r: Database, s: Database, alters: seq<AlterTable>) {
    forall i :: 0 <= i < |alters| ==>
        alters[i].table in r && alters[i].table in s && r[alters[i].table] == s[alters[i].table]
  }

  /** Tables that no change is about are what they were. */
  ghost predicate Spared(db: Database, r: Database, alters: seq<AlterTable>) {
    r.Keys == db.Keys && forall id :: id in db && (forall i :: 0 <= i < |alters| ==> alters[i].table != id) ==>
        r[id] == db[id]
  }

  ghost predicate IsRest(alters: seq<AlterTable>, rest: seq<AlterTable>) {
    alters != [] && rest == alters[1..] && forall i :: 0 <= i < |rest| ==> rest[i] == alters[i + 1]
  }

  lemma RestPlanned(version: nat, db: Database, t: Table, alters: seq<AlterTable>)
    requires alters != [] && AllPlanned(version, db, alters) && DistinctTables(alters)
    ensures var db1, rest := db[alters[0].table := t], alters[1..];
            && IsRest(alters, rest) && AllPlanned(version, db1, rest) && DistinctTables(rest)
            && AllFit(version, db1, rest) == AllFit(version, db, rest)
    ensures forall i :: 0 <= i < |alters[1..]| ==> alters[1..][i].table != alters[0].table && alters[1..][i].table in db
  {
    var rest := alters[1..];
    forall i | 0 <= i < |rest|
      ensures rest[i].table != alters[0].table && rest[i].table in db && Planned(version, db[rest[i].table], rest[i])
    {
      assert rest[i] == alters[i + 1];
    }
    FitElsewhere(version, db, alters[0].table, t, rest);
  }

  lemma {:induction false} FitElsewhere(version: nat, db: Database, id: TableID, t: Table, alters: seq<AlterTable>)
    requires forall i :: 0 <= i < |alters| ==> alters[i].table in db && alters[i].table != id
    ensures AllFit(version, db[id := t], alters) == AllFit(version, db, alters)
    decreases |alters|
  {
    if alters == [] {
    } else {
      assert forall i :: 0 <= i < |alters[1..]| ==> alters[1..][i] == alters[i + 1];
      FitElsewhere(version, db, id, t, alters[1..]);
    }
  }

  /** Two runs from databases that agree on the tables: one in stages, and one directly. */
  ghost predicate Compared(version: nat, db: Database, dd: Database, r: Option<Database>, s: Option<Database>,
                           alters: seq<AlterTable>)
    requires forall i :: 0 <= i < |alters| ==> alters[i].table in db
  {
    && (r.Some? <==> s.Some? && AllFit(version, db, alters))
    && (r.Some? ==> Spared(db, r.value, alters) && Spared(dd, s.value, alters))
    && (r.Some? ==> (AgreeOn(r.value, s.value, alters) <==> NoneDeferrable(alters)))
  }

  lemma {:induction false} AltersCompared(version: nat, db: Database, dd: Database, alters: seq<AlterTable>)
    requires AllPlanned(version, db, alters) && DistinctTables(alters) && AgreeOn(db, dd, alters)
    ensures Compared(version, db, dd, Execute(db, AltersInStages(version, alters)),
                     Execute(dd, AltersDirectly(alters)), alters)
    decreases |alters|
  {
    if alters == [] {
    } else {
      var a, rest := alters[0], alters[1..];
      var staged, direct := ApplyEdits(db[a.table], InStages(version, a)), ApplyEdits(db[a.table], Directly(a));
      TableInStagesExactly(version, db[a.table], a);
      EditsInDatabase(db, a.table, InStages(version, a));
      EditsInDatabase(dd, a.table, Directly(a));
      ExecuteConcat(db, OnTables(a.table, InStages(version, a)), AltersInStages(version, rest));
      ExecuteConcat(dd, OnTables(a.table, Directly(a)), AltersDirectly(rest));
      if staged.Some? {
        RestPlanned(version, db, staged.value, alters);
        AltersCompared(version, db[a.table := staged.value], dd[a.table := direct.value], rest);
        ComparedFirst(version, db, dd, staged.value, direct.value, alters);
      }
    }
  }

  lemma ComparedFirst(version: nat, db: Database, dd: Database, t: Table, u: Table, alters: seq<AlterTable>)
    requires alters != [] && AllPlanned(version, db, alters) && DistinctTables(alters) && AgreeOn(db, dd, alters)
    requires ColumnsFit(version, db[alters[0].table], alters[0].table, alters[0].alterColumns)
    requires t == u <==> AllImmediate(alters[0].addKeys)
    requires var db1, dd1, rest := db[alters[0].table := t], dd[alters[0].table := u], alters[1..];
             && IsRest(alters, rest) && AllPlanned(version, db1, rest)
             && AllFit(version, db1, rest) == AllFit(version, db, rest)
             && Compared(version, db1, dd1, Execute(db1, AltersInStages(version, rest)),
                         Execute(dd1, AltersDirectly(rest)), rest)
    ensures var db1, dd1, rest := db[alters[0].table := t], dd[alters[0].table := u], alters[1..];
            Compared(version, db, dd, Execute(db1, AltersInStages(version, rest)),
                     Execute(dd1, AltersDirectly(rest)), alters)
  {
    var id, rest := alters[0].table, alters[1..];
    var db1, dd1 := db[id := t], dd[id := u];
    var r, s := Execute(db1, AltersInStages(version, rest)), Execute(dd1, AltersDirectly(rest));
    if r.Some? {
      SparedFirst(db, db1, r.value, alters);
      SparedFirst(dd, dd1, s.value, alters);
      AgreeFirst(r.value, s.value, alters);
    }
  }

  lemma SparedFirst(db: Database, db1: Database, r: Database, alters: seq<AlterTable>)
    requires alters != [] && DistinctTables(alters) && IsRest(alters, alters[1..]) && alters[0].table in db
    requires alters[0].table in db1 && db1 == db[alters[0].table := db1[alters[0].table]] && Spared(db1, r, alters[1..])
    ensures Spared(db, r, alters) && alters[0].table in r && r[alters[0].table] == db1[alters[0].table]
  {
  }

  lemma AgreeFirst(r: Database, s: Database, alters: seq<AlterTable>)
    requires alters != [] && IsRest(alters, alters[1..]) && alters[0].table in r && alters[0].table in s
    ensures AgreeOn(r, s, alters) <==> r[alters[0].table] == s[alters[0].table] && AgreeOn(r, s, alters[1..])
  {
    var rest := alters[1..];
    if r[alters[0].table] == s[alters[0].table] && AgreeOn(r, s, rest) {
      forall i | 0 <= i < |alters|
        ensures alters[i].table in r && alters[i].table in s && r[alters[i].table] == s[alters[i].table]
      {
        assert i > 0 ==> alters[i] == rest[i - 1];
      }
    }
    if AgreeOn(r, s, alters) {
      assert forall i :: 0 <= i < |rest| ==> rest[i] == alters[i + 1];
    }
  }

  /** The stages of tables work exactly where the direct changes do and fit everywhere; then they come to the same
      database, exactly if no key is deferrable. */
  lemma AltersInStagesExactly(version: nat, db: Database, alters: seq<AlterTable>)
    requires AllPlanned(version, db, alters) && DistinctTables(alters)
    ensures var r, s := Execute(db, AltersInStages(version, alters)), Execute(db, AltersDirectly(alters));
            && (r.Some? <==> s.Some? && AllFit(version, db, alters))
            && (r.Some? ==> (r == s <==> NoneDeferrable(alters)))
  {
    AltersCompared(version, db, db, alters);
    var r, s := Execute(db, AltersInStages(version, alters)), Execute(db, AltersDirectly(alters));
    if r.Some? && AgreeOn(r.value, s.value, alters) {
      SameDatabase(db, r.value, s.value, alters);
    }
  }

  lemma SameDatabase(db: Database, r: Database, s: Database, alters: seq<AlterTable>)
    requires Spared(db, r, alters) && Spared(db, s, alters) && AgreeOn(r, s, alters)
    ensures r == s
  {
    forall id | id in db ensures r[id] == s[id] {
      if i :| 0 <= i < |alters| && alters[i].table == id {
      }
    }
  }
}
