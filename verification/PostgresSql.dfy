/** The statements as the migration writes them, table by table and group by group, and what they do to a database. */
module PostgresSql {
  import opened Common
  import opened PostgresTables
  import opened PostgresStages
  import opened PostgresColumns
  import opened PostgresRefinement
  import opened PostgresGroups
  import opened PostgresStaged
  import opened PostgresReached

  // ----- what the statements do -----

  ghost predicate ColumnsWork(version: nat, a: AlterTable, es: seq<Edit>) {
    forall t :: Planned(version, t, a) ==>
      ApplyEdits(t, es) == if ColumnsFit(version, t, a.table, a.alterColumns)
                           then ApplyEdits(t, ColumnEdits(false, a.table, a.alterColumns)) else None
  }

  lemma ColumnsDoWork(version: nat, a: AlterTable, es: seq<Edit>)
    requires es == ColumnEdits(version >= 12, a.table, a.alterColumns) + ValidateChecks(a.table, a.validateNotNull)
    ensures ColumnsWork(version, a, es)
  {
    forall t | Planned(version, t, a)
      ensures ApplyEdits(t, es) == if ColumnsFit(version, t, a.table, a.alterColumns)
                                   then ApplyEdits(t, ColumnEdits(false, a.table, a.alterColumns)) else None
    {
      ColumnsInStages(version, t, a.table, a.alterColumns);
    }
  }

  /** On tables that are as the catalog says, they make the columns what they should be. */
  ghost predicate ColumnsReachAll(version: nat, a: AlterTable, es: seq<Edit>) {
    forall t :: Planned(version, t, a) && AreAs(t, a.alterColumns) && ApplyEdits(t, es).Some? ==>
      ColumnsReached(t, ApplyEdits(t, es).value, a.alterColumns)
  }

  lemma ColumnsDoReach(version: nat, a: AlterTable, es: seq<Edit>)
    requires ColumnsWork(version, a, es)
    ensures ColumnsReachAll(version, a, es)
  {
    forall t | Planned(version, t, a) && AreAs(t, a.alterColumns) && ApplyEdits(t, es).Some?
      ensures ColumnsReached(t, ApplyEdits(t, es).value, a.alterColumns)
    {
      ColumnsReach(t, a.table, a.alterColumns);
    }
  }

  ghost predicate KeysWork(xs: seq<(string, Index)>, ks: seq<NewKey>, es: seq<Edit>) {
    forall t :: ApplyEdits(t, es) == ApplyEdits(t, CreateIndexes(xs) + AddKeys(Undeferred(ks)))
  }

  lemma KeysDoWork(xs: seq<(string, Index)>, ks: seq<NewKey>, es: seq<Edit>)
    requires es == CreateIndexes(xs) + KeysThroughIndexes(ks)
    ensures KeysWork(xs, ks, es)
  {
    forall t ensures ApplyEdits(t, es) == ApplyEdits(t, CreateIndexes(xs) + AddKeys(Undeferred(ks))) {
      EditsConcat(t, CreateIndexes(xs), KeysThroughIndexes(ks));
      EditsConcat(t, CreateIndexes(xs), AddKeys(Undeferred(ks)));
      match ApplyEdits(t, CreateIndexes(xs))
      case None =>
      case Some(mid) => KeysThroughIndexesAre(mid, ks);
    }
  }

  /** Two lists of statements come to the same on every database. */
  ghost predicate SameEffect(ss: seq<Statement>, tt: seq<Statement>) {
    forall db :: Execute(db, ss) == Execute(db, tt)
  }

  lemma GroupDoesWork(group: seq<NewForeignKey>)
    requires group != [] && OfTable(group[0].table, group)
    ensures SameEffect(GroupInStages(group), GroupDirectly(group))
  {
    forall db ensures Execute(db, GroupInStages(group)) == Execute(db, GroupDirectly(group)) {
      GroupAgrees(db, group);
    }
  }

  /** On every database that the changes were planned for, the statements come to the direct changes if they fit, and
      fail if they do not. */
  ghost predicate AllWork(version: nat, alters: seq<AlterTable>, fkeys: seq<NewForeignKey>, ss: seq<Statement>) {
    forall db :: AllPlanned(version, db, alters) && DistinctTables(alters) ==>
      Execute(db, ss) == if AllFit(version, db, alters) then Execute(db, DirectlyAll(alters, fkeys)) else None
  }

  lemma AllDoWork(version: nat, alters: seq<AlterTable>, fkeys: seq<NewForeignKey>)
    requires NoneDeferrable(alters) && OneWay(fkeys) && NonEmpty(Grouped(fkeys))
    ensures AllWork(version, alters, fkeys, InStagesAll(version, alters, fkeys))
  {
    forall db | AllPlanned(version, db, alters) && DistinctTables(alters)
      ensures Execute(db, InStagesAll(version, alters, fkeys))
           == if AllFit(version, db, alters) then Execute(db, DirectlyAll(alters, fkeys)) else None
    {
      StagesAgreeExactly(version, db, alters, fkeys);
    }
  }

  /** And on databases that are as the catalog says, they reach what they are for. */
  ghost predicate AllReach(version: nat, alters: seq<AlterTable>, fkeys: seq<NewForeignKey>, ss: seq<Statement>) {
    forall db :: AllPlanned(version, db, alters) && AllAs(db, alters) && DistinctTables(alters)
                 && Execute(db, ss).Some? ==>
      Reached(db, Execute(db, ss).value, alters, fkeys)
  }

  lemma AllDoReach(version: nat, alters: seq<AlterTable>, fkeys: seq<NewForeignKey>)
    requires OneWay(fkeys) && NonEmpty(Grouped(fkeys))
    ensures AllReach(version, alters, fkeys, InStagesAll(version, alters, fkeys))
  {
    forall db | AllPlanned(version, db, alters) && AllAs(db, alters) && DistinctTables(alters)
                && Execute(db, InStagesAll(version, alters, fkeys)).Some?
      ensures Reached(db, Execute(db, InStagesAll(version, alters, fkeys)).value, alters, fkeys)
    {
      MigrationReaches(version, db, alters, fkeys);
    }
  }

  // ----- as they are written -----

  /** What is changed before and after the NOT NULL of a column. */
  method WriteChanges(p: ColumnPair) returns (before: seq<Change>, after: seq<Change>)
    ensures before == TypeChange(p) + DefaultChange(p) && after == IdentityChange(p)
  {
    before, after := [], [];
    if p.src.columnType != p.dest.columnType {
      before := [SetType(p.dest.columnType,
                         if Collation(p.dest.collation) != DEFAULT_COLLATION then Some(p.dest.collation) else None)];
    } else if Collation(p.src.collation) != Collation(p.dest.collation) {
      before := [SetType(p.dest.columnType, Some(p.dest.collation))];
    }
    assert before == TypeChange(p);
    var s, d := p.src.default, p.dest.default;
    if s != "" && d == "" {
      before := before + [Change.DropDefault];
    } else if (s == "" && d != "") || (p.src.isLiteral && p.dest.isLiteral && s != d) {
      before := before + [Change.SetDefault(d)];
    }
    if p.src.identity != "" && p.dest.identity == "" {
      after := [DropIdentity];
    } else if p.src.identity == "" && p.dest.identity != "" {
      after := [AddIdentity];
    }
  }

  /** A column loses its nulls in stages from version 12 on. */
  method WritePair(version: nat, table: TableID, p: ColumnPair) returns (buf: seq<Edit>)
    ensures buf == PairEdits(version >= 12, table, p)
  {
    var before, after := WriteChanges(p);
    var nulls: seq<Edit> := [];
    if p.src.isNotNull && !p.dest.isNotNull {
      nulls := [AlterColumn(p.name, DropNotNull)];
    } else if !p.src.isNotNull && p.dest.isNotNull {
      if version < 12 {
        nulls := [SetNotNull(p.name)];
      } else {
        nulls := [AddNotNullCheck(CheckName(table, p.name), p.name)];
      }
    }
    assert nulls == NullEdits(version >= 12, table, p);
    return Alters(p.name, before) + (nulls + Alters(p.name, after));
  }

  method WritePairs(version: nat, table: TableID, ps: seq<ColumnPair>) returns (buf: seq<Edit>)
    ensures buf == ColumnEdits(version >= 12, table, ps)
  {
    buf := [];
    for i := 0 to |ps|
      invariant buf + ColumnEdits(version >= 12, table, ps[i..]) == ColumnEdits(version >= 12, table, ps)
    {
      var pair := WritePair(version, table, ps[i]);
      OneMorePair(version >= 12, table, buf, ps, i);
      buf := buf + pair;
    }
    assert ps[|ps|..] == [];
  }

  /** The columns are altered, and the checks that were added are validated. */
  method WriteColumns(version: nat, a: AlterTable) returns (buf: seq<Edit>)
    ensures buf == ColumnEdits(version >= 12, a.table, a.alterColumns) + ValidateChecks(a.table, a.validateNotNull)
    ensures ColumnsWork(version, a, buf) && ColumnsReachAll(version, a, buf)
  {
    buf := WritePairs(version, a.table, a.alterColumns);
    var cs := a.validateNotNull;
    var checks: seq<Edit> := [];
    for i := 0 to |cs|
      invariant checks + ValidateChecks(a.table, cs[i..]) == ValidateChecks(a.table, cs)
    {
      var n := CheckName(a.table, cs[i]);
      OneMoreCheck(a.table, checks, cs, i);
      checks := checks + [ValidateCheck(n), SetNotNull(cs[i]), DropConstraint(n)];
    }
    assert cs[|cs|..] == [];
    buf := buf + checks;
    ColumnsDoWork(version, a, buf);
    ColumnsDoReach(version, a, buf);
  }

  lemma OneMoreCheck(table: TableID, buf: seq<Edit>, cs: seq<string>, i: nat)
    requires i < |cs|
    ensures var n := CheckName(table, cs[i]);
      buf + [ValidateCheck(n), SetNotNull(cs[i]), DropConstraint(n)] + ValidateChecks(table, cs[i + 1..])
      == buf + ValidateChecks(table, cs[i..])
  {
    assert cs[i..][0] == cs[i] && cs[i..][1..] == cs[i + 1..];
  }

  lemma OneMorePair(checks: bool, table: TableID, buf: seq<Edit>, ps: seq<ColumnPair>, i: nat)
    requires i < |ps|
    ensures buf + PairEdits(checks, table, ps[i]) + ColumnEdits(checks, table, ps[i + 1..])
         == buf + ColumnEdits(checks, table, ps[i..])
  {
    assert ps[i..][0] == ps[i] && ps[i..][1..] == ps[i + 1..];
  }

  /** The indexes, and the keys through indexes of their own: those keys, but none of them deferrable. */
  method WriteKeys(xs: seq<(string, Index)>, ks: seq<NewKey>) returns (buf: seq<Edit>)
    ensures buf == CreateIndexes(xs) + KeysThroughIndexes(ks)
    ensures KeysWork(xs, ks, buf)
  {
    buf := [];
    for i := 0 to |xs|
      invariant buf + CreateIndexes(xs[i..]) == CreateIndexes(xs)
    {
      assert xs[i..][0] == xs[i] && xs[i..][1..] == xs[i + 1..];
      buf := buf + [CreateIndex(xs[i].0, xs[i].1)];
    }
    assert xs[|xs|..] == [];
    var keys: seq<Edit> := [];
    for i := 0 to |ks|
      invariant keys + KeysThroughIndexes(ks[i..]) == KeysThroughIndexes(ks)
    {
      assert ks[i..][0] == ks[i] && ks[i..][1..] == ks[i + 1..];
      keys := keys + [CreateIndex(ks[i].name, Index(true, ks[i].columns)), AddKeyUsingIndex(ks[i].name, ks[i].keyType)];
    }
    assert ks[|ks|..] == [];
    buf := buf + keys;
    KeysDoWork(xs, ks, buf);
  }

  /** The foreign keys of a group: if they are all of one table, that comes to adding them one by one. */
  method WriteGroup(group: seq<NewForeignKey>) returns (buf: seq<Statement>)
    requires group != []
    ensures buf == GroupInStages(group)
    ensures OfTable(group[0].table, group) ==> SameEffect(buf, GroupDirectly(group))
  {
    var table := group[0].table;
    buf := [];
    for i := 0 to |group|
      invariant buf + GroupAdds(table, group[i..]) == GroupAdds(table, group)
    {
      OneMoreAdd(table, buf, group, i);
      buf := buf + [AddForeignKey(table, group[i].name, group[i].reference, false)];
    }
    assert group[|group|..] == [];
    var validations: seq<Statement> := [];
    for i := 0 to |group|
      invariant validations + GroupValidates(table, group[i..]) == GroupValidates(table, group)
    {
      OneMoreValidation(table, validations, group, i);
      validations := validations + [ValidateForeignKey(table, group[i].name)];
    }
    buf := buf + validations;
    if OfTable(group[0].table, group) {
      GroupDoesWork(group);
    }
  }

  lemma OneMoreAdd(table: TableID, buf: seq<Statement>, group: seq<NewForeignKey>, i: nat)
    requires i < |group|
    ensures buf + [AddForeignKey(table, group[i].name, group[i].reference, false)] + GroupAdds(table, group[i + 1..])
         == buf + GroupAdds(table, group[i..])
  {
    assert group[i..][0] == group[i] && group[i..][1..] == group[i + 1..];
  }

  lemma OneMoreValidation(table: TableID, buf: seq<Statement>, group: seq<NewForeignKey>, i: nat)
    requires i < |group|
    ensures buf + [ValidateForeignKey(table, group[i].name)] + GroupValidates(table, group[i + 1..])
         == buf + GroupValidates(table, group[i..])
  {
    assert group[i..][0] == group[i] && group[i..][1..] == group[i + 1..];
  }

  lemma OneMoreAlter(version: nat, buf: seq<Statement>, columns: seq<Edit>, keys: seq<Edit>, alters: seq<AlterTable>,
                     i: nat)
    requires i < |alters| && keys == CreateIndexes(alters[i].createIndexes) + KeysThroughIndexes(alters[i].addKeys)
    requires columns == ColumnEdits(version >= 12, alters[i].table, alters[i].alterColumns)
                        + ValidateChecks(alters[i].table, alters[i].validateNotNull)
    ensures buf + OnTables(alters[i].table, columns + keys) + AltersInStages(version, alters[i + 1..])
         == buf + AltersInStages(version, alters[i..])
  {
    assert alters[i..][0] == alters[i] && alters[i..][1..] == alters[i + 1..];
    assert columns + keys == InStages(version, alters[i]);
    Regroup(buf, OnTables(alters[i].table, columns + keys), AltersInStages(version, alters[i + 1..]));
  }

  lemma Regroup(a: seq<Statement>, b: seq<Statement>, c: seq<Statement>)
    ensures a + (b + c) == a + b + c
  {
  }

  method WriteTables(version: nat, alters: seq<AlterTable>) returns (buf: seq<Statement>)
    ensures buf == AltersInStages(version, alters)
  {
    buf := [];
    for i := 0 to |alters|
      invariant buf + AltersInStages(version, alters[i..]) == AltersInStages(version, alters)
    {
      var columns := WriteColumns(version, alters[i]);
      var keys := WriteKeys(alters[i].createIndexes, alters[i].addKeys);
      OneMoreAlter(version, buf, columns, keys, alters, i);
      buf := buf + OnTables(alters[i].table, columns + keys);
    }
    assert alters[|alters|..] == [];
  }

  /** The whole of it comes to the direct changes, if no key is deferrable and no two foreign keys go to and fro. */
  method Sql(version: nat, alters: seq<AlterTable>, fkeys: seq<NewForeignKey>) returns (buf: seq<Statement>)
    ensures NoneDeferrable(alters) && OneWay(fkeys) ==> AllWork(version, alters, fkeys, buf)
    ensures OneWay(fkeys) ==> AllReach(version, alters, fkeys, buf)
  {
    GroupsHaveMembers(fkeys);
    buf := WriteTables(version, alters);
    var groups := GroupForeignKeys(fkeys);
    ghost var tables := buf;
    for i := 0 to |groups|
      invariant NonEmpty(groups[i..]) && buf + GroupsInStages(groups[i..]) == tables + GroupsInStages(groups)
    {
      assert groups[i..][0] == groups[i] && groups[i..][1..] == groups[i + 1..];
      var part := WriteGroup(groups[i]);
      Regroup(buf, part, GroupsInStages(groups[i + 1..]));
      buf := buf + part;
    }
    assert groups[|groups|..] == [];
    assert buf == InStagesAll(version, alters, fkeys);
    if OneWay(fkeys) {
      AllDoReach(version, alters, fkeys);
      if NoneDeferrable(alters) {
        AllDoWork(version, alters, fkeys);
      }
    }
  }
}
