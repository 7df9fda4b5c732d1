/** Foreign keys that are added in groups: first not valid, then validated. */
module PostgresGroups {
  import opened Common
  import opened PostgresTables
  import opened PostgresStages

  /** All foreign keys are of one table. */
  predicate OfTable(id: TableID, fs: seq<NewForeignKey>) {
    forall k :: 0 <= k < |fs| ==> fs[k].table == id
  }

  function KeysOf(fs: seq<NewForeignKey>, valid: bool): map<string, Constraint>
    decreases |fs|
  {
    if fs == [] then map[] else KeysOf(fs[1..], valid)[fs[0].name := ForeignKey(fs[0].reference, valid)]
  }

  /** The foreign keys can be added to a table: what they refer to is there, and their names are free. */
  predicate Addable(db: Database, id: TableID, fs: seq<NewForeignKey>)
    decreases |fs|
  {
    fs == [] || (
      && Referable(db, id, fs[0].reference) && fs[0].name !in db[id].constraints
      && fs[0].name !in KeysOf(fs[1..], true) && Addable(db, id, fs[1..]))
  }

  lemma {:induction false} SameNames(fs: seq<NewForeignKey>)
    ensures KeysOf(fs, true).Keys == KeysOf(fs, false).Keys
    decreases |fs|
  {
    if fs == [] {
    } else {
      SameNames(fs[1..]);
    }
  }

  function WithKeys(db: Database, id: TableID, fs: seq<NewForeignKey>, valid: bool): Database
    requires id in db
  {
    db[id := db[id].(constraints := db[id].constraints + KeysOf(fs, valid))]
  }

  lemma WithoutKeys(db: Database, id: TableID, valid: bool)
    requires id in db
    ensures WithKeys(db, id, [], valid) == db
  {
    assert db[id].constraints + map[] == db[id].constraints;
    assert db[id := db[id]] == db;
  }

  /** A foreign key does not matter to what can be referred to, and no constraint does to the rows. */
  lemma StillReferable(db: Database, id: TableID, n: string, reference: Reference, valid: bool, other: Reference)
    requires id in db && n !in db[id].constraints
    ensures var after := Put(db, id, n, ForeignKey(reference, valid));
            && Referable(after, id, other) == Referable(db, id, other)
            && (Referable(db, id, other) ==> Dangling(after, id, other) == Dangling(db, id, other))
  {
    var after := Put(db, id, n, ForeignKey(reference, valid));
    if other.table in db {
      StillKey(db[other.table], after[other.table], n, other.referenced);
    }
  }

  lemma StillKey(t: Table, u: Table, n: string, columns: seq<string>)
    requires t == u || (n !in t.constraints && n in u.constraints && u.constraints[n].ForeignKey?
                        && u.constraints == t.constraints[n := u.constraints[n]])
    ensures IsKey(u, columns) == IsKey(t, columns)
  {
    if m :| m in t.constraints && IsKeyOn(t.constraints[m], columns) {
      assert m in u.constraints && u.constraints[m] == t.constraints[m];
    }
    if m :| m in u.constraints && IsKeyOn(u.constraints[m], columns) {
      assert m in t.constraints && t.constraints[m] == u.constraints[m];
    }
  }

  lemma {:induction false} StillAddable(db: Database, id: TableID, f: NewForeignKey, valid: bool,
                                        fs: seq<NewForeignKey>)
    requires id in db && f.name !in db[id].constraints
    ensures Addable(Put(db, id, f.name, ForeignKey(f.reference, valid)), id, fs)
       <==> Addable(db, id, fs) && f.name !in KeysOf(fs, true)
    decreases |fs|
  {
    if fs == [] {
    } else {
      StillReferable(db, id, f.name, f.reference, valid, fs[0].reference);
      StillAddable(db, id, f, valid, fs[1..]);
    }
  }

  lemma FirstKey(db: Database, id: TableID, fs: seq<NewForeignKey>, valid: bool)
    requires fs != [] && id in db && fs[0].name !in KeysOf(fs[1..], true)
    ensures WithKeys(Put(db, id, fs[0].name, ForeignKey(fs[0].reference, valid)), id, fs[1..], valid)
        == WithKeys(db, id, fs, valid)
  {
    SameNames(fs[1..]);
    var n, c := fs[0].name, ForeignKey(fs[0].reference, valid);
    assert db[id].constraints[n := c] + KeysOf(fs[1..], valid) == db[id].constraints + KeysOf(fs, valid);
  }

  /** The foreign keys are added as not valid exactly if they can be added. */
  lemma {:induction false} GroupIsAdded(db: Database, id: TableID, fs: seq<NewForeignKey>)
    requires id in db
    ensures Execute(db, GroupAdds(id, fs)) == if Addable(db, id, fs) then Some(WithKeys(db, id, fs, false)) else None
    decreases |fs|
  {
    if fs == [] {
      WithoutKeys(db, id, false);
    } else {
      var f, rest := fs[0], fs[1..];
      assert GroupAdds(id, fs)[1..] == GroupAdds(id, rest);
      if Referable(db, id, f.reference) && f.name !in db[id].constraints {
        StillAddable(db, id, f, false, rest);
        GroupIsAdded(Put(db, id, f.name, ForeignKey(f.reference, false)), id, rest);
        if Addable(db, id, fs) {
          FirstKey(db, id, fs, false);
        }
      }
    }
  }

  /** The first of some foreign keys that are not valid is validated, if all rows have parents. */
  lemma FirstIsValidated(db: Database, id: TableID, fs: seq<NewForeignKey>)
    requires fs != [] && id in db && Addable(db, id, fs)
    ensures var f := fs[0];
            Apply(WithKeys(db, id, fs, false), ValidateForeignKey(id, f.name))
            == if Dangling(db, id, f.reference) then None
               else Some(WithKeys(Put(db, id, f.name, ForeignKey(f.reference, true)), id, fs[1..], false))
  {
    var f, before := fs[0], WithKeys(db, id, fs, false);
    SameNames(fs[1..]);
    AllReferable(db, id, fs, f.reference);
    SameRows(db, before, id, f.reference);
    KeysMerge(db, id, fs);
  }

  lemma SameRows(db: Database, after: Database, id: TableID, reference: Reference)
    requires Referable(db, id, reference) && Referable(after, id, reference)
    requires after[id].rows == db[id].rows && after[reference.table].rows == db[reference.table].rows
    ensures Dangling(after, id, reference) == Dangling(db, id, reference)
  {
  }

  lemma KeysMerge(db: Database, id: TableID, fs: seq<NewForeignKey>)
    requires fs != [] && id in db && fs[0].name !in KeysOf(fs[1..], false)
    ensures Put(WithKeys(db, id, fs, false), id, fs[0].name, ForeignKey(fs[0].reference, true))
         == WithKeys(Put(db, id, fs[0].name, ForeignKey(fs[0].reference, true)), id, fs[1..], false)
  {
    var f := fs[0];
    assert (db[id].constraints + KeysOf(fs, false))[f.name := ForeignKey(f.reference, true)]
        == db[id].constraints[f.name := ForeignKey(f.reference, true)] + KeysOf(fs[1..], false);
  }

  lemma {:induction false} AllReferable(db: Database, id: TableID, fs: seq<NewForeignKey>, reference: Reference)
    requires id in db && Addable(db, id, fs) && Referable(db, id, reference)
    ensures Referable(WithKeys(db, id, fs, false), id, reference)
    decreases |fs|
  {
    if fs == [] {
      WithoutKeys(db, id, false);
    } else {
      var f := fs[0];
      StillReferable(db, id, f.name, f.reference, false, reference);
      StillAddable(db, id, f, false, fs[1..]);
      AllReferable(Put(db, id, f.name, ForeignKey(f.reference, false)), id, fs[1..], reference);
      FirstKey(db, id, fs, false);
    }
  }

  /** To validate foreign keys that are not valid comes to what it comes to to add them as valid. */
  lemma {:induction false} GroupIsValidated(db: Database, id: TableID, fs: seq<NewForeignKey>)
    requires id in db && Addable(db, id, fs) && OfTable(id, fs)
    ensures Execute(WithKeys(db, id, fs, false), GroupValidates(id, fs)) == Execute(db, GroupDirectly(fs))
    decreases |fs|
  {
    if fs == [] {
      WithoutKeys(db, id, false);
    } else {
      var f, rest := fs[0], fs[1..];
      FirstIsValidated(db, id, fs);
      assert GroupValidates(id, fs)[1..] == GroupValidates(id, rest) && GroupDirectly(fs)[1..] == GroupDirectly(rest);
      if !Dangling(db, id, f.reference) {
        StillAddable(db, id, f, true, rest);
        GroupIsValidated(Put(db, id, f.name, ForeignKey(f.reference, true)), id, rest);
      }
    }
  }

  lemma {:induction false} DirectNeedsAddable(db: Database, id: TableID, fs: seq<NewForeignKey>)
    requires id in db && OfTable(id, fs) && Execute(db, GroupDirectly(fs)).Some?
    ensures Addable(db, id, fs)
    decreases |fs|
  {
    if fs == [] {
    } else {
      var f, rest := fs[0], fs[1..];
      assert GroupDirectly(fs)[1..] == GroupDirectly(rest);
      DirectNeedsAddable(Put(db, id, f.name, ForeignKey(f.reference, true)), id, rest);
      StillAddable(db, id, f, true, rest);
    }
  }

  /** A group of one table comes to what its foreign keys come to one by one. */
  lemma GroupAgrees(db: Database, group: seq<NewForeignKey>)
    requires group != [] && OfTable(group[0].table, group)
    ensures Execute(db, GroupInStages(group)) == Execute(db, GroupDirectly(group))
  {
    var id := group[0].table;
    ExecuteConcat(db, GroupAdds(id, group), GroupValidates(id, group));
    if id in db {
      GroupIsAdded(db, id, group);
      if Addable(db, id, group) {
        GroupIsValidated(db, id, group);
      } else if Execute(db, GroupDirectly(group)).Some? {
        DirectNeedsAddable(db, id, group);
      }
    }
  }

  // ----- groups of more than one table -----

  ghost predicate NamesTable(fs: seq<NewForeignKey>, id: TableID, n: string) {
    exists k :: 0 <= k < |fs| && fs[k].table == id && fs[k].name == n
  }

  /** One by one, each foreign key goes to its own table. */
  lemma {:induction false} DirectFrame(db: Database, fs: seq<NewForeignKey>, id: TableID, n: string)
    requires Execute(db, GroupDirectly(fs)).Some? && id in db && n !in db[id].constraints && !NamesTable(fs, id, n)
    ensures var r := Execute(db, GroupDirectly(fs)).value; id in r && n !in r[id].constraints
    decreases |fs|
  {
    if fs == [] {
    } else {
      var f, rest := fs[0], fs[1..];
      assert GroupDirectly(fs)[1..] == GroupDirectly(rest);
      assert f.table != id || f.name != n;
      forall k | 0 <= k < |rest| ensures rest[k].table != id || rest[k].name != n {
        assert rest[k] == fs[k + 1];
      }
      DirectFrame(Put(db, f.table, f.name, ForeignKey(f.reference, true)), rest, id, n);
    }
  }

  lemma {:induction false} ValidatesKeep(db: Database, id: TableID, fs: seq<NewForeignKey>, n: string)
    requires id in db && n in db[id].constraints && Execute(db, GroupValidates(id, fs)).Some?
    ensures var r := Execute(db, GroupValidates(id, fs)).value; id in r && n in r[id].constraints
    decreases |fs|
  {
    if fs == [] {
    } else {
      assert GroupValidates(id, fs)[1..] == GroupValidates(id, fs[1..]);
      ValidatesKeep(Apply(db, ValidateForeignKey(id, fs[0].name)).value, id, fs[1..], n);
    }
  }

  lemma {:induction false} NamedOnce(db: Database, id: TableID, fs: seq<NewForeignKey>, k: nat)
    requires id in db && Addable(db, id, fs) && k < |fs|
    ensures fs[k].name !in db[id].constraints && fs[k].name in KeysOf(fs, false)
    ensures forall j :: 0 <= j < |fs| && fs[j].name == fs[k].name ==> j == k
    decreases |fs|
  {
    SameNames(fs[1..]);
    if k == 0 {
    } else {
      NamedOnce(db, id, fs[1..], k - 1);
    }
    forall j | 0 <= j < |fs| && fs[j].name == fs[k].name ensures j == k {
      if j > 0 {
        NamedOnce(db, id, fs[1..], j - 1);
        assert fs[1..][j - 1] == fs[j];
      }
    }
  }

  /** If a group's foreign keys can be added one by one, then the stages come to the same exactly if all are of one
      table. */
  lemma GroupAgreesExactly(db: Database, group: seq<NewForeignKey>)
    requires group != [] && group[0].table in db && Execute(db, GroupDirectly(group)).Some?
    ensures Execute(db, GroupInStages(group)) == Execute(db, GroupDirectly(group)) <==> OfTable(group[0].table, group)
  {
    var id := group[0].table;
    if OfTable(id, group) {
      GroupAgrees(db, group);
    } else if Execute(db, GroupInStages(group)).Some? {
      var k :| 0 <= k < |group| && group[k].table != id;
      ExecuteConcat(db, GroupAdds(id, group), GroupValidates(id, group));
      GroupIsAdded(db, id, group);
      NamedOnce(db, id, group, k);
      ValidatesKeep(WithKeys(db, id, group, false), id, group, group[k].name);
      DirectFrame(db, group, id, group[k].name);
    }
  }
}
