/** What a migration in stages leaves: the columns, indexes, keys and foreign keys that were asked for. */
module PostgresReached {
  import opened Common
  import Catalogs
  import opened PostgresTables
  import opened PostgresStages
  import opened PostgresColumns
  import opened PostgresRefinement
  import opened PostgresGroups
  import opened PostgresStaged

  // ----- a column -----

  /** The column is as a catalog describes it. */
  predicate IsAs(c: Column, d: ColumnDef) {
    && c.columnType == d.columnType && c.collation == (if d.collation == "" then "default" else d.collation)
    && c.default == d.default && c.notNull == d.isNotNull && (c.identity <==> d.identity != "")
  }

  /** Two defaults that are not both literals are not compared. */
  predicate DefaultStays(src: ColumnDef, dest: ColumnDef) {
    src.default != "" && dest.default != "" && src.default != dest.default && !(src.isLiteral && dest.isLiteral)
  }

  /** The column is as it should be, with its old default if that stays. A primary key makes it NOT NULL in any case. */
  predicate ColumnReached(c: Column, p: ColumnPair, isKey: bool) {
    && c.columnType == p.dest.columnType
    && c.collation == (if p.dest.collation == "" then "default" else p.dest.collation)
    && (c.identity <==> p.dest.identity != "")
    && c.notNull == (p.dest.isNotNull || isKey)
    && c.default == if DefaultStays(p.src, p.dest) then p.src.default else p.dest.default
  }

  /** It has the default of dest exactly if that was not left alone. */
  lemma DefaultReachedExactly(c: Column, p: ColumnPair, isKey: bool)
    requires ColumnReached(c, p, isKey)
    ensures c.default == p.dest.default <==> !DefaultStays(p.src, p.dest)
  {
  }

  /** Some changes to a column, one after another. */
  function ChangedAll(c: Column, isKey: bool, changes: seq<Change>): Option<Column>
    decreases |changes|
  {
    if changes == [] then Some(c)
    else match Changed(c, isKey, changes[0])
      case None => None
      case Some(after) => ChangedAll(after, isKey, changes[1..])
  }

  lemma {:induction false} AltersChange(t: Table, c: string, changes: seq<Change>)
    requires c in t.columns
    ensures ApplyEdits(t, Alters(c, changes))
         == match ChangedAll(t.columns[c], InPrimaryKey(t, c), changes)
            case None => None
            case Some(column) => Some(t.(columns := t.columns[c := column]))
    decreases |changes|
  {
    if changes == [] {
      assert t.columns[c := t.columns[c]] == t.columns;
    } else {
      assert Alters(c, changes)[1..] == Alters(c, changes[1..]);
      match Changed(t.columns[c], InPrimaryKey(t, c), changes[0])
      case None =>
      case Some(column) =>
        var after := t.(columns := t.columns[c := column]);
        assert InPrimaryKey(after, c) == InPrimaryKey(t, c);
        AltersChange(after, c, changes[1..]);
        match ChangedAll(column, InPrimaryKey(t, c), changes[1..])
        case None =>
        case Some(last) => assert t.columns[c := column][c := last] == t.columns[c := last];
    }
  }

  lemma TwoChanges(c: Column, isKey: bool, a: Change, b: Change)
    ensures ChangedAll(c, isKey, [a])  == Changed(c, isKey, a)
    ensures ChangedAll(c, isKey, [a, b])
         == match Changed(c, isKey, a) case None => None case Some(mid) => Changed(mid, isKey, b)
  {
    assert [a][1..] == [] && [a, b][1..] == [b] && [b][1..] == [];
    forall x: Column ensures ChangedAll(x, isKey, []) == Some(x) {
    }
  }

  /** Type, collation and default. */
  lemma ValuesReach(c: Column, isKey: bool, p: ColumnPair)
    requires IsAs(c, p.src) && ChangedAll(c, isKey, TypeChange(p) + DefaultChange(p)).Some?
    ensures var after := ChangedAll(c, isKey, TypeChange(p) + DefaultChange(p)).value;
      && after.columnType == p.dest.columnType
      && after.collation == (if p.dest.collation == "" then "default" else p.dest.collation)
      && after.default == (if DefaultStays(p.src, p.dest) then p.src.default else p.dest.default)
      && after.notNull == c.notNull && after.identity == c.identity
  {
    var a, b := TypeChange(p), DefaultChange(p);
    if a != [] && b != [] {
      assert a + b == [a[0], b[0]];
      TwoChanges(c, isKey, a[0], b[0]);
    } else if a != [] {
      assert a + b == [a[0]];
      TwoChanges(c, isKey, a[0], a[0]);
    } else if b != [] {
      assert a + b == [b[0]];
      TwoChanges(c, isKey, b[0], b[0]);
    } else {
      assert a + b == [];
    }
  }

  /** No change is written that would leave the column as it is. */
  lemma EachChangeMatters(c: Column, isKey: bool, p: ColumnPair, change: Change)
    requires IsAs(c, p.src) && change in TypeChange(p) + DefaultChange(p) + IdentityChange(p)
    ensures Changed(c, isKey, change) != Some(c)
  {
  }

  lemma IdentityReaches(c: Column, isKey: bool, p: ColumnPair)
    requires (c.identity <==> p.src.identity != "") && ChangedAll(c, isKey, IdentityChange(p)).Some?
    ensures var after := ChangedAll(c, isKey, IdentityChange(p)).value;
      (after.identity <==> p.dest.identity != "") && after == c.(identity := after.identity)
  {
    var a := IdentityChange(p);
    if a != [] {
      assert a == [a[0]];
      TwoChanges(c, isKey, a[0], a[0]);
    }
  }

  /** Only one column is changed. */
  ghost predicate OnlyColumn(t: Table, u: Table, c: string) {
    c in t.columns && c in u.columns && u == t.(columns := t.columns[c := u.columns[c]])
  }

  lemma NullsReach(t: Table, table: TableID, p: ColumnPair)
    requires p.name in t.columns && t.columns[p.name].notNull == p.src.isNotNull
    requires ApplyEdits(t, NullEdits(false, table, p)).Some?
    ensures var u := ApplyEdits(t, NullEdits(false, table, p)).value;
      OnlyColumn(t, u, p.name) && u.columns[p.name] == t.columns[p.name].(notNull := p.dest.isNotNull)
  {
    var es := NullEdits(false, table, p);
    if es == [] {
      assert t.columns[p.name := t.columns[p.name]] == t.columns;
    } else {
      assert es == [es[0]] && es[1..] == [];
      var u := ApplyEdit(t, es[0]).value;
      assert ApplyEdits(u, []) == Some(u);
      assert u.columns == t.columns[p.name := u.columns[p.name]];
    }
  }

  /** The changes to a column make it what it should be, and change nothing else. */
  lemma PairReaches(t: Table, table: TableID, p: ColumnPair)
    requires p.name in t.columns && IsAs(t.columns[p.name], p.src)
    requires ApplyEdits(t, PairEdits(false, table, p)).Some?
    ensures var u := ApplyEdits(t, PairEdits(false, table, p)).value;
      OnlyColumn(t, u, p.name) && ColumnReached(u.columns[p.name], p, false)
  {
    var values, nulls, identity := Alters(p.name, TypeChange(p) + DefaultChange(p)), NullEdits(false, table, p),
        Alters(p.name, IdentityChange(p));
    EditsConcat(t, values, nulls + identity);
    AltersChange(t, p.name, TypeChange(p) + DefaultChange(p));
    ValuesReach(t.columns[p.name], InPrimaryKey(t, p.name), p);
    var t1 := ApplyEdits(t, values).value;
    EditsConcat(t1, nulls, identity);
    NullsReach(t1, table, p);
    var t2 := ApplyEdits(t1, nulls).value;
    AltersChange(t2, p.name, IdentityChange(p));
    IdentityReaches(t2.columns[p.name], InPrimaryKey(t2, p.name), p);
    OnlyTwice(t, t1, t2, ApplyEdits(t2, identity).value, p.name);
  }

  lemma OnlyTwice(t: Table, t1: Table, t2: Table, t3: Table, c: string)
    requires OnlyColumn(t, t1, c) && OnlyColumn(t1, t2, c) && OnlyColumn(t2, t3, c)
    ensures OnlyColumn(t, t3, c)
  {
    assert t.columns[c := t1.columns[c]][c := t2.columns[c]][c := t3.columns[c]] == t.columns[c := t3.columns[c]];
  }

  // ----- the columns of a table -----

  ghost predicate AreAs(t: Table, ps: seq<ColumnPair>) {
    forall i :: 0 <= i < |ps| ==> ps[i].name in t.columns && IsAs(t.columns[ps[i].name], ps[i].src)
  }

  ghost predicate Listed(ps: seq<ColumnPair>, c: string) {
    exists i :: 0 <= i < |ps| && ps[i].name == c
  }

  /** Each column is as it should be, and others are as they were; so is all but the columns. */
  ghost predicate ColumnsReached(t: Table, u: Table, ps: seq<ColumnPair>) {
    && u == t.(columns := u.columns) && u.columns.Keys == t.columns.Keys
    && (forall i :: 0 <= i < |ps| ==> ps[i].name in u.columns && ColumnReached(u.columns[ps[i].name], ps[i], false))
    && forall c :: c in t.columns && !Listed(ps, c) ==> u.columns[c] == t.columns[c]
  }

  lemma {:induction false} ColumnsReach(t: Table, table: TableID, ps: seq<ColumnPair>)
    requires DistinctNames(ps) && AreAs(t, ps) && ApplyEdits(t, ColumnEdits(false, table, ps)).Some?
    ensures ColumnsReached(t, ApplyEdits(t, ColumnEdits(false, table, ps)).value, ps)
    decreases |ps|
  {
    if ps == [] {
    } else {
      var p, rest := ps[0], ps[1..];
      EditsConcat(t, PairEdits(false, table, p), ColumnEdits(false, table, rest));
      PairReaches(t, table, p);
      var mid := ApplyEdits(t, PairEdits(false, table, p)).value;
      forall i | 0 <= i < |rest| ensures rest[i].name != p.name && rest[i] == ps[i + 1] {
      }
      ColumnsReach(mid, table, rest);
      FirstReached(t, mid, ApplyEdits(mid, ColumnEdits(false, table, rest)).value, ps);
    }
  }

  lemma ListedBehind(ps: seq<ColumnPair>, c: string)
    requires ps != []
    ensures Listed(ps[1..], c) ==> Listed(ps, c)
  {
    if i :| 0 <= i < |ps[1..]| && ps[1..][i].name == c {
      assert ps[i + 1].name == c;
    }
  }

  lemma FirstReached(t: Table, mid: Table, u: Table, ps: seq<ColumnPair>)
    requires ps != [] && DistinctNames(ps) && OnlyColumn(t, mid, ps[0].name)
    requires ColumnReached(mid.columns[ps[0].name], ps[0], false) && ColumnsReached(mid, u, ps[1..])
    ensures ColumnsReached(t, u, ps)
  {
    var rest := ps[1..];
    assert !Listed(rest, ps[0].name);
    forall i | 0 <= i < |ps| ensures ps[i].name in u.columns && ColumnReached(u.columns[ps[i].name], ps[i], false) {
      if i > 0 {
        assert rest[i - 1] == ps[i];
      }
    }
    forall c | c in t.columns && !Listed(ps, c) ensures u.columns[c] == t.columns[c] {
      assert ps[0].name != c;
      ListedBehind(ps, c);
    }
  }

  // ----- indexes and keys -----

  /** All that was there still is; some columns may have become NOT NULL. */
  ghost predicate Kept(t: Table, u: Table) {
    && (forall n :: n in t.indexes ==> n in u.indexes && u.indexes[n] == t.indexes[n])
    && (forall n :: n in t.constraints ==> n in u.constraints && u.constraints[n] == t.constraints[n])
    && u.rows == t.rows && u.columns.Keys == t.columns.Keys
  }

  ghost predicate IndexesReached(t: Table, u: Table, xs: seq<(string, Index)>) {
    && Kept(t, u) && u.columns == t.columns && u.constraints == t.constraints
    && forall i :: 0 <= i < |xs| ==> xs[i].0 in u.indexes && u.indexes[xs[i].0] == xs[i].1
  }

  lemma {:induction false} IndexesReach(t: Table, xs: seq<(string, Index)>)
    requires ApplyEdits(t, CreateIndexes(xs)).Some?
    ensures IndexesReached(t, ApplyEdits(t, CreateIndexes(xs)).value, xs)
    decreases |xs|
  {
    if xs == [] {
    } else {
      assert CreateIndexes(xs)[1..] == CreateIndexes(xs[1..]);
      var mid := ApplyEdit(t, CreateIndex(xs[0].0, xs[0].1)).value;
      IndexesReach(mid, xs[1..]);
      assert forall i :: 1 <= i < |xs| ==> xs[i] == xs[1..][i - 1];
    }
  }

  /** A column of a primary key that is to be added. */
  ghost predicate BecomesKey(ks: seq<NewKey>, c: string) {
    exists i :: 0 <= i < |ks| && ks[i].keyType == PrimaryKey && c in ks[i].columns
  }

  ghost predicate KeysReached(t: Table, u: Table, ks: seq<NewKey>) {
    && Kept(t, u) && u.indexes == t.indexes
    && (forall i :: 0 <= i < |ks| ==>
          ks[i].name in u.constraints && u.constraints[ks[i].name] == Key(ks[i].keyType, ks[i].columns, NotDeferrable))
    && forall c :: c in t.columns ==>
         u.columns[c] == t.columns[c].(notNull := t.columns[c].notNull || BecomesKey(ks, c))
  }

  lemma KeyReaches(t: Table, k: NewKey, u: Table)
    requires ApplyEdit(t, AddKey(k.name, k.keyType, k.columns, NotDeferrable)) == Some(u)
    ensures KeysReached(t, u, [k])
  {
    forall c | c in t.columns
      ensures BecomesKey([k], c) <==> k.keyType == PrimaryKey && c in k.columns
    {
      if k.keyType == PrimaryKey && c in k.columns {
        assert [k][0].keyType == PrimaryKey;
      }
    }
  }

  lemma BecomesKeyFirst(ks: seq<NewKey>, c: string)
    requires ks != []
    ensures BecomesKey(ks, c) <==> BecomesKey([ks[0]], c) || BecomesKey(ks[1..], c)
  {
    if i :| 0 <= i < |ks| && ks[i].keyType == PrimaryKey && c in ks[i].columns {
      assert i > 0 ==> ks[1..][i - 1] == ks[i];
      assert i == 0 ==> [ks[0]][0] == ks[i];
    }
    if i :| 0 <= i < |ks[1..]| && ks[1..][i].keyType == PrimaryKey && c in ks[1..][i].columns {
      assert ks[i + 1] == ks[1..][i];
    }
  }

  lemma {:induction false} KeysReach(t: Table, ks: seq<NewKey>)
    requires ApplyEdits(t, KeysThroughIndexes(ks)).Some?
    ensures KeysReached(t, ApplyEdits(t, KeysThroughIndexes(ks)).value, ks)
    decreases |ks|
  {
    if ks == [] {
    } else {
      var first := [CreateIndex(ks[0].name, Index(true, ks[0].columns)), AddKeyUsingIndex(ks[0].name, ks[0].keyType)];
      EditsConcat(t, first, KeysThroughIndexes(ks[1..]));
      KeyThroughIndex(t, ks[0]);
      var mid := ApplyEdits(t, first).value;
      KeyReaches(t, ks[0], mid);
      KeysReach(mid, ks[1..]);
      var u := ApplyEdits(mid, KeysThroughIndexes(ks[1..])).value;
      forall i | 0 <= i < |ks|
        ensures ks[i].name in u.constraints
                && u.constraints[ks[i].name] == Key(ks[i].keyType, ks[i].columns, NotDeferrable)
      {
        assert i > 0 ==> ks[1..][i - 1] == ks[i];
        assert i == 0 ==> [ks[0]][0] == ks[i];
      }
      forall c | c in t.columns
        ensures u.columns[c] == t.columns[c].(notNull := t.columns[c].notNull || BecomesKey(ks, c))
      {
        BecomesKeyFirst(ks, c);
      }
    }
  }

  // ----- a table -----

  /** What a migration makes of a table: columns that change are as they should be, others as they were but for
      primary keys; and indexes and keys are there. */
  ghost predicate TableReached(t: Table, u: Table, a: AlterTable) {
    && (forall i :: 0 <= i < |a.alterColumns| ==>
          var p := a.alterColumns[i];
          p.name in u.columns && ColumnReached(u.columns[p.name], p, BecomesKey(a.addKeys, p.name)))
    && (forall c :: c in t.columns && !Listed(a.alterColumns, c) ==>
          c in u.columns && u.columns[c] == t.columns[c].(notNull := t.columns[c].notNull || BecomesKey(a.addKeys, c)))
    && (forall i :: 0 <= i < |a.createIndexes| ==>
          a.createIndexes[i].0 in u.indexes && u.indexes[a.createIndexes[i].0] == a.createIndexes[i].1)
    && (forall i :: 0 <= i < |a.addKeys| ==>
          var k := a.addKeys[i];
          k.name in u.constraints && u.constraints[k.name] == Key(k.keyType, k.columns, NotDeferrable))
    && Kept(t, u)
  }

  lemma TableReaches(version: nat, t: Table, a: AlterTable)
    requires Planned(version, t, a) && AreAs(t, a.alterColumns) && ApplyEdits(t, InStages(version, a)).Some?
    ensures TableReached(t, ApplyEdits(t, InStages(version, a)).value, a)
  {
    var columns := ColumnEdits(version >= 12, a.table, a.alterColumns) + ValidateChecks(a.table, a.validateNotNull);
    var indexes, keys := CreateIndexes(a.createIndexes), KeysThroughIndexes(a.addKeys);
    ColumnsInStages(version, t, a.table, a.alterColumns);
    EditsConcat(t, columns + indexes, keys);
    EditsConcat(t, columns, indexes);
    ColumnsReach(t, a.table, a.alterColumns);
    var t1 := ApplyEdits(t, columns).value;
    IndexesReach(t1, a.createIndexes);
    var t2 := ApplyEdits(t1, indexes).value;
    KeysReach(t2, a.addKeys);
    AllReached(t, t1, t2, ApplyEdits(t2, keys).value, a);
  }

  lemma AllReached(t: Table, t1: Table, t2: Table, u: Table, a: AlterTable)
    requires ColumnsReached(t, t1, a.alterColumns) && AreAs(t, a.alterColumns)
    requires IndexesReached(t1, t2, a.createIndexes) && KeysReached(t2, u, a.addKeys)
    ensures TableReached(t, u, a)
  {
    forall i | 0 <= i < |a.alterColumns|
      ensures var p := a.alterColumns[i];
        p.name in u.columns && ColumnReached(u.columns[p.name], p, BecomesKey(a.addKeys, p.name))
    {
      assert ColumnReached(t1.columns[a.alterColumns[i].name], a.alterColumns[i], false);
    }
  }

  // ----- the tables of a migration -----

  ghost predicate AllAs(db: Database, alters: seq<AlterTable>) {
    forall i :: 0 <= i < |alters| ==> alters[i].table in db && AreAs(db[alters[i].table], alters[i].alterColumns)
  }

  ghost predicate AltersReached(db: Database, r: Database, alters: seq<AlterTable>) {
    forall i :: 0 <= i < |alters| ==>
      alters[i].table in db && alters[i].table in r
      && TableReached(db[alters[i].table], r[alters[i].table], alters[i])
  }

  lemma {:induction false} AltersReach(version: nat, db: Database, alters: seq<AlterTable>)
    requires AllPlanned(version, db, alters) && DistinctTables(alters) && AllAs(db, alters)
    requires Execute(db, AltersInStages(version, alters)).Some?
    ensures var r := Execute(db, AltersInStages(version, alters)).value;
      AltersReached(db, r, alters) && Spared(db, r, alters)
    decreases |alters|
  {
    if alters == [] {
    } else {
      var a, rest := alters[0], alters[1..];
      ExecuteConcat(db, OnTables(a.table, InStages(version, a)), AltersInStages(version, rest));
      EditsInDatabase(db, a.table, InStages(version, a));
      TableReaches(version, db[a.table], a);
      var mid := Execute(db, OnTables(a.table, InStages(version, a))).value;
      forall i | 0 <= i < |rest| ensures rest[i] == alters[i + 1] && rest[i].table != a.table {
      }
      AltersReach(version, mid, rest);
      FirstTableReached(db, mid, Execute(mid, AltersInStages(version, rest)).value, alters);
    }
  }

  lemma FirstTableReached(db: Database, mid: Database, r: Database, alters: seq<AlterTable>)
    requires alters != [] && DistinctTables(alters) && alters[0].table in db && alters[0].table in mid
    requires mid == db[alters[0].table := mid[alters[0].table]]
    requires TableReached(db[alters[0].table], mid[alters[0].table], alters[0])
    requires AltersReached(mid, r, alters[1..]) && Spared(mid, r, alters[1..])
    requires forall i :: 0 <= i < |alters| ==> alters[i].table in db
    ensures AltersReached(db, r, alters) && Spared(db, r, alters)
  {
    var rest := alters[1..];
    assert forall i :: 0 <= i < |rest| ==> rest[i] == alters[i + 1] && rest[i].table != alters[0].table;
    forall i | 0 <= i < |alters|
      ensures alters[i].table in r && TableReached(db[alters[i].table], r[alters[i].table], alters[i])
    {
      if i > 0 {
        assert rest[i - 1] == alters[i];
      }
    }
    forall id | id in db && forall i :: 0 <= i < |alters| ==> alters[i].table != id ensures r[id] == db[id] {
      assert alters[0].table != id;
    }
  }

  // ----- foreign keys -----

  /** Tables get more constraints, and nothing else changes. */
  ghost predicate OnlyMore(r: Database, s: Database) {
    r.Keys == s.Keys && forall id :: id in r ==> MoreConstraints(r[id], s[id])
  }

  ghost predicate MoreConstraints(t: Table, u: Table) {
    u == t.(constraints := u.constraints)
    && forall n :: n in t.constraints ==> n in u.constraints && u.constraints[n] == t.constraints[n]
  }

  predicate IsThere(db: Database, fk: NewForeignKey) {
    fk.table in db && fk.name in db[fk.table].constraints
    && db[fk.table].constraints[fk.name] == ForeignKey(fk.reference, true)
  }

  lemma AddReaches(db: Database, fk: NewForeignKey, s: Database)
    requires Apply(db, AddForeignKey(fk.table, fk.name, fk.reference, true)) == Some(s)
    ensures OnlyMore(db, s) && IsThere(s, fk)
  {
  }

  lemma OnlyMoreTwice(r: Database, s: Database, u: Database)
    requires OnlyMore(r, s) && OnlyMore(s, u)
    ensures OnlyMore(r, u)
  {
    forall id | id in r ensures MoreConstraints(r[id], u[id]) {
      assert MoreConstraints(r[id], s[id]) && MoreConstraints(s[id], u[id]);
    }
  }

  lemma StillThere(r: Database, s: Database, fk: NewForeignKey)
    requires OnlyMore(r, s) && IsThere(r, fk)
    ensures IsThere(s, fk)
  {
    assert MoreConstraints(r[fk.table], s[fk.table]);
  }

  lemma {:induction false} GroupReaches(db: Database, group: seq<NewForeignKey>)
    requires Execute(db, GroupDirectly(group)).Some?
    ensures var s := Execute(db, GroupDirectly(group)).value;
      OnlyMore(db, s) && forall k :: 0 <= k < |group| ==> IsThere(s, group[k])
    decreases |group|
  {
    if group == [] {
    } else {
      var fk := group[0];
      assert GroupDirectly(group)[1..] == GroupDirectly(group[1..]);
      var mid := Apply(db, AddForeignKey(fk.table, fk.name, fk.reference, true)).value;
      var s := Execute(mid, GroupDirectly(group[1..])).value;
      AddReaches(db, fk, mid);
      GroupReaches(mid, group[1..]);
      OnlyMoreTwice(db, mid, s);
      StillThere(mid, s, fk);
      forall k | 0 <= k < |group| ensures IsThere(s, group[k]) {
        assert k > 0 ==> group[k] == group[1..][k - 1];
      }
    }
  }

  lemma {:induction false} GroupsReach(db: Database, groups: seq<seq<NewForeignKey>>)
    requires Execute(db, GroupsDirectly(groups)).Some?
    ensures var s := Execute(db, GroupsDirectly(groups)).value;
      OnlyMore(db, s) && forall i, k :: 0 <= i < |groups| && 0 <= k < |groups[i]| ==> IsThere(s, groups[i][k])
    decreases |groups|
  {
    if groups == [] {
    } else {
      ExecuteConcat(db, GroupDirectly(groups[0]), GroupsDirectly(groups[1..]));
      GroupReaches(db, groups[0]);
      var mid := Execute(db, GroupDirectly(groups[0])).value;
      GroupsReach(mid, groups[1..]);
      var s := Execute(mid, GroupsDirectly(groups[1..])).value;
      OnlyMoreTwice(db, mid, s);
      forall i, k | 0 <= i < |groups| && 0 <= k < |groups[i]| ensures IsThere(s, groups[i][k]) {
        if i == 0 {
          StillThere(mid, s, groups[0][k]);
        } else {
          assert groups[i] == groups[1..][i - 1];
        }
      }
    }
  }

  lemma StillReached(db: Database, r: Database, s: Database, alters: seq<AlterTable>)
    requires AltersReached(db, r, alters) && OnlyMore(r, s)
    ensures AltersReached(db, s, alters)
  {
    forall i | 0 <= i < |alters|
      ensures alters[i].table in s && TableReached(db[alters[i].table], s[alters[i].table], alters[i])
    {
      assert MoreConstraints(r[alters[i].table], s[alters[i].table]);
    }
  }

  // ----- a whole migration -----

  /** Columns, indexes and keys are what was asked for, and so are all foreign keys, valid. */
  ghost predicate Reached(db: Database, after: Database, alters: seq<AlterTable>, fkeys: seq<NewForeignKey>) {
    AltersReached(db, after, alters) && forall i :: 0 <= i < |fkeys| ==> IsThere(after, fkeys[i])
  }

  /** If the statements go through, they reach what they are for. */
  lemma MigrationReaches(version: nat, db: Database, alters: seq<AlterTable>, fkeys: seq<NewForeignKey>)
    requires AllPlanned(version, db, alters) && DistinctTables(alters) && AllAs(db, alters) && OneWay(fkeys)
    requires NonEmpty(Grouped(fkeys)) && Execute(db, InStagesAll(version, alters, fkeys)).Some?
    ensures Reached(db, Execute(db, InStagesAll(version, alters, fkeys)).value, alters, fkeys)
  {
    var groups: seq<seq<NewForeignKey>> := Grouped(fkeys);
    ExecuteConcat(db, AltersInStages(version, alters), GroupsInStages(groups));
    AltersReach(version, db, alters);
    var mid := Execute(db, AltersInStages(version, alters)).value;
    GroupsOfOneTableExactly(fkeys);
    GroupsAgree(mid, groups);
    GroupsReach(mid, groups);
    var after := Execute(mid, GroupsInStages(groups)).value;
    StillReached(db, mid, after, alters);
    forall i | 0 <= i < |fkeys| ensures IsThere(after, fkeys[i]) {
      GroupsConserve(fkeys);
      assert fkeys[i] in multiset(fkeys);
      var g, k := MemberOfGroup(groups, fkeys[i]);
    }
  }

  // ----- what the planner leaves out -----

  /** The columns are the same in all that is compared. */
  predicate SameColumn(src: ColumnDef, dest: ColumnDef) {
    && src.columnType == dest.columnType && src.default == dest.default
    && (src.isNotNull == dest.isNotNull || dest.isPrimaryKey) && (src.identity == "" <==> dest.identity == "")
    && (if src.collation == "" then "default" else src.collation)
       == (if dest.collation == "" then "default" else dest.collation)
  }

  ghost predicate IsPair(src: seq<CatalogColumn>, dest: seq<CatalogColumn>, p: ColumnPair) {
    Catalogs.Object(p.name, false, p.src) in src && Catalogs.Object(p.name, false, p.dest) in dest
  }

  ghost predicate ListsPair(src: seq<CatalogColumn>, dest: seq<CatalogColumn>, p: ColumnPair) {
    p in Pairs(src, dest) <==> IsPair(src, dest, p) && !SameColumn(p.src, p.dest)
  }

  lemma LastIsListed(src: seq<CatalogColumn>, dest: seq<CatalogColumn>, p: ColumnPair)
    requires dest != [] && Catalogs.UniqueNames(src) && Catalogs.UniqueNames(dest)
    requires ListsPair(src, dest[..|dest| - 1], p)
    ensures ListsPair(src, dest, p)
  {
    PairOfLast(src, dest, p);
    Catalogs.FindIsLive(src, dest[|dest| - 1].name);
  }

  lemma LastIsDistinct(src: seq<CatalogColumn>, init: seq<CatalogColumn>, d: CatalogColumn)
    requires Catalogs.UniqueNames(init + [d]) && DistinctNames(Pairs(src, init))
    requires forall p {:trigger p in Pairs(src, init)} :: p in Pairs(src, init) ==> IsPair(src, init, p)
    ensures DistinctNames(Pairs(src, init + [d]))
  {
    assert (init + [d])[..|init|] == init;
    var before := Pairs(src, init);
    forall i | 0 <= i < |before| ensures before[i].name != d.name {
      assert before[i] in before;
      var k :| 0 <= k < |init| && init[k] == Catalogs.Object(before[i].name, false, before[i].dest);
      assert (init + [d])[k] == init[k] && (init + [d])[|init|] == d;
    }
  }

  /** Of the columns that both catalogs have, the planner lists exactly those that differ, each once. */
  lemma {:induction false} PairsExactly(src: seq<CatalogColumn>, dest: seq<CatalogColumn>)
    requires Catalogs.UniqueNames(src) && Catalogs.UniqueNames(dest)
    ensures forall p {:trigger p in Pairs(src, dest)} ::
              p in Pairs(src, dest) <==> IsPair(src, dest, p) && !SameColumn(p.src, p.dest)
    ensures DistinctNames(Pairs(src, dest))
  {
    if dest == [] {
    } else {
      var init, d := dest[..|dest| - 1], dest[|dest| - 1];
      assert dest == init + [d];
      PairsExactly(src, init);
      forall p ensures p in Pairs(src, dest) <==> IsPair(src, dest, p) && !SameColumn(p.src, p.dest) {
        assert p in Pairs(src, init) <==> IsPair(src, init, p) && !SameColumn(p.src, p.dest);
        LastIsListed(src, dest, p);
      }
      LastIsDistinct(src, init, d);
    }
  }

  /** A pair of columns is one of those before, or of the last. */
  lemma PairOfLast(src: seq<CatalogColumn>, dest: seq<CatalogColumn>, p: ColumnPair)
    requires dest != [] && Catalogs.UniqueNames(src) && Catalogs.UniqueNames(dest)
    ensures var d := dest[|dest| - 1];
      IsPair(src, dest, p) <==>
      || IsPair(src, dest[..|dest| - 1], p)
      || (p.name == d.name && p.dest == d.def && !d.ignore
          && Catalogs.Find(src, d.name) == Some(Catalogs.Object(p.name, false, p.src)))
  {
    var init, d := dest[..|dest| - 1], dest[|dest| - 1];
    assert dest == init + [d];
    if IsPair(src, dest, p) {
      FoundInSource(src, p.name, p.src);
    }
    Catalogs.FindIsLive(src, d.name);
  }

  lemma FoundInSource(src: seq<CatalogColumn>, name: string, def: ColumnDef)
    requires Catalogs.UniqueNames(src) && Catalogs.Object(name, false, def) in src
    ensures Catalogs.Find(src, name) == Some(Catalogs.Object(name, false, def))
  {
    Catalogs.FindIsLive(src, name);
    Catalogs.LiveMember(src, name);
  }

  /** A table that is as one catalog describes it, changed as the planner wants: every column that the other catalog has
      too is as that one describes it, but for defaults that stay, and for NOT NULL if it is part of a primary key. */
  lemma ComparedReaches(src: seq<CatalogColumn>, dest: seq<CatalogColumn>, t: Table, u: Table, a: AlterTable,
                        p: ColumnPair)
    requires Catalogs.UniqueNames(src) && Catalogs.UniqueNames(dest) && a.alterColumns == Pairs(src, dest)
    requires forall c :: c in src && !c.ignore ==> c.name in t.columns && IsAs(t.columns[c.name], c.def)
    requires TableReached(t, u, a) && IsPair(src, dest, p)
    ensures p.name in u.columns
    ensures var c := u.columns[p.name];
      && ColumnReached(c.(notNull := p.dest.isNotNull), p, false)
      && (!p.dest.isPrimaryKey ==> c.notNull == (p.dest.isNotNull || BecomesKey(a.addKeys, p.name)))
  {
    assert Catalogs.Object(p.name, false, p.src) in src;
    if SameColumn(p.src, p.dest) {
      NotListed(src, dest, p);
      UnlistedReached(t, u, a, p);
    } else {
      var i := ListedAt(src, dest, p);
      ListedReached(t, u, a, i);
    }
  }

  lemma ListedAt(src: seq<CatalogColumn>, dest: seq<CatalogColumn>, p: ColumnPair) returns (i: nat)
    requires Catalogs.UniqueNames(src) && Catalogs.UniqueNames(dest)
    requires IsPair(src, dest, p) && !SameColumn(p.src, p.dest)
    ensures i < |Pairs(src, dest)| && Pairs(src, dest)[i] == p
  {
    PairsExactly(src, dest);
    assert p in Pairs(src, dest);
    i :| 0 <= i < |Pairs(src, dest)| && Pairs(src, dest)[i] == p;
  }

  lemma ListedReached(t: Table, u: Table, a: AlterTable, i: nat)
    requires TableReached(t, u, a) && i < |a.alterColumns|
    ensures var p := a.alterColumns[i];
      p.name in u.columns && ColumnReached(u.columns[p.name], p, BecomesKey(a.addKeys, p.name))
  {
  }

  lemma UnlistedReached(t: Table, u: Table, a: AlterTable, p: ColumnPair)
    requires TableReached(t, u, a) && !Listed(a.alterColumns, p.name) && SameColumn(p.src, p.dest)
    requires p.name in t.columns && IsAs(t.columns[p.name], p.src)
    ensures p.name in u.columns
    ensures ColumnReached(u.columns[p.name].(notNull := p.dest.isNotNull), p, false)
    ensures !p.dest.isPrimaryKey ==>
              u.columns[p.name].notNull == (p.dest.isNotNull || BecomesKey(a.addKeys, p.name))
  {
    UnchangedIsReached(t.columns[p.name], u.columns[p.name], p, BecomesKey(a.addKeys, p.name));
  }

  lemma UnchangedIsReached(before: Column, c: Column, p: ColumnPair, isKey: bool)
    requires IsAs(before, p.src) && SameColumn(p.src, p.dest) && c == before.(notNull := before.notNull || isKey)
    ensures ColumnReached(c.(notNull := p.dest.isNotNull), p, false)
    ensures !p.dest.isPrimaryKey ==> c.notNull == (p.dest.isNotNull || isKey)
  {
  }

  lemma NotListed(src: seq<CatalogColumn>, dest: seq<CatalogColumn>, p: ColumnPair)
    requires Catalogs.UniqueNames(src) && Catalogs.UniqueNames(dest)
    requires IsPair(src, dest, p) && SameColumn(p.src, p.dest)
    ensures !Listed(Pairs(src, dest), p.name)
  {
    var ps := Pairs(src, dest);
    PairsExactly(src, dest);
    forall i | 0 <= i < |ps| ensures ps[i].name != p.name {
      assert ps[i] in ps;
      if ps[i].name == p.name {
        OnePair(src, dest, ps[i], p);
      }
    }
  }

  lemma OnePair(src: seq<CatalogColumn>, dest: seq<CatalogColumn>, p: ColumnPair, q: ColumnPair)
    requires Catalogs.UniqueNames(src) && Catalogs.UniqueNames(dest)
    requires IsPair(src, dest, p) && IsPair(src, dest, q) && p.name == q.name
    ensures p == q
  {
    FoundInSource(src, p.name, p.src);
    FoundInSource(src, p.name, q.src);
    FoundInSource(dest, p.name, p.dest);
    FoundInSource(dest, p.name, q.dest);
  }
}
