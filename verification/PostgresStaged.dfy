/** A whole run of changes in stages: it comes to what the direct changes come to; and if it goes through, neither a
    check, nor a foreign key that is not valid, nor the index of a key is left. */
module PostgresStaged {
  import opened Common
  import opened PostgresTables
  import opened PostgresStages
  import opened PostgresRefinement
  import opened PostgresGroups

  // ----- the groups -----

  /** The foreign keys of a group have its pair of tables, and no other group has that pair. */
  ghost predicate Tidy(groups: seq<seq<NewForeignKey>>) {
    && NonEmpty(groups)
    && (forall i, k :: 0 <= i < |groups| && 0 <= k < |groups[i]| ==> TablesID(groups[i][k]) == TablesID(groups[i][0]))
    && (forall i, k :: 0 <= i < k < |groups| ==> TablesID(groups[i][0]) != TablesID(groups[k][0]))
  }

  lemma {:induction false} NoGroup(groups: seq<seq<NewForeignKey>>, tables: (TableID, TableID), i: nat)
    requires GroupOf(groups, tables) == None && i < |groups| && groups[i] != []
    ensures TablesID(groups[i][0]) != tables
  {
    if i < |groups| - 1 {
      NoGroup(groups[..|groups| - 1], tables, i);
    }
  }

  lemma JoinedTidy(groups: seq<seq<NewForeignKey>>, fk: NewForeignKey)
    requires Tidy(groups)
    ensures Tidy(Joined(groups, fk))
  {
    if GroupOf(groups, TablesID(fk)) == None {
      forall i | 0 <= i < |groups| ensures TablesID(groups[i][0]) != TablesID(fk) {
        NoGroup(groups, TablesID(fk), i);
      }
    }
  }

  lemma {:induction false} GroupsAreTidy(fkeys: seq<NewForeignKey>)
    ensures Tidy(Grouped(fkeys))
  {
    if fkeys == [] {
    } else {
      GroupsAreTidy(fkeys[..|fkeys| - 1]);
      JoinedTidy(Grouped(fkeys[..|fkeys| - 1]), fkeys[|fkeys| - 1]);
    }
  }

  /** All foreign keys of the groups, one group after another. */
  function Members(groups: seq<seq<NewForeignKey>>): multiset<NewForeignKey> {
    if groups == [] then multiset{} else Members(groups[..|groups| - 1]) + multiset(groups[|groups| - 1])
  }

  lemma {:induction false} MembersUpdate(groups: seq<seq<NewForeignKey>>, i: nat, fk: NewForeignKey)
    requires i < |groups|
    ensures Members(groups[i := groups[i] + [fk]]) == Members(groups) + multiset{fk}
  {
    var after := groups[i := groups[i] + [fk]];
    if i == |groups| - 1 {
      assert after[..|groups| - 1] == groups[..|groups| - 1];
    } else {
      assert after[..|groups| - 1] == groups[..|groups| - 1][i := groups[i] + [fk]];
      MembersUpdate(groups[..|groups| - 1], i, fk);
    }
  }

  /** Every foreign key is in the groups as often as it was given. */
  lemma {:induction false} GroupsConserve(fkeys: seq<NewForeignKey>)
    ensures Members(Grouped(fkeys)) == multiset(fkeys)
  {
    if fkeys == [] {
    } else {
      var init, fk := fkeys[..|fkeys| - 1], fkeys[|fkeys| - 1];
      GroupsConserve(init);
      assert fkeys == init + [fk];
      match GroupOf(Grouped(init), TablesID(fk))
      case None => assert Joined(Grouped(init), fk)[..|Grouped(init)|] == Grouped(init);
      case Some(i) => MembersUpdate(Grouped(init), i, fk);
    }
  }

  lemma {:induction false} MemberOfGroup(groups: seq<seq<NewForeignKey>>, fk: NewForeignKey) returns (i: nat, k: nat)
    requires fk in Members(groups)
    ensures i < |groups| && k < |groups[i]| && groups[i][k] == fk
  {
    var last := groups[|groups| - 1];
    if fk in last {
      i := |groups| - 1;
      k :| 0 <= k < |last| && last[k] == fk;
    } else {
      i, k := MemberOfGroup(groups[..|groups| - 1], fk);
    }
  }

  lemma {:induction false} GroupMember(groups: seq<seq<NewForeignKey>>, i: nat, k: nat)
    requires i < |groups| && k < |groups[i]|
    ensures groups[i][k] in Members(groups)
  {
    if i < |groups| - 1 {
      GroupMember(groups[..|groups| - 1], i, k);
    }
  }

  /** No two foreign keys go to and fro between two tables. */
  ghost predicate OneWay(fkeys: seq<NewForeignKey>) {
    forall f, g :: f in fkeys && g in fkeys && TablesID(f) == TablesID(g) ==> f.table == g.table
  }

  ghost predicate OneTableEach(groups: seq<seq<NewForeignKey>>)
    requires NonEmpty(groups)
  {
    forall i :: 0 <= i < |groups| ==> OfTable(groups[i][0].table, groups[i])
  }

  /** Each group is of one table exactly if no two foreign keys go to and fro. */
  lemma GroupsOfOneTableExactly(fkeys: seq<NewForeignKey>)
    ensures NonEmpty(Grouped(fkeys)) && (OneTableEach(Grouped(fkeys)) <==> OneWay(fkeys))
  {
    var groups: seq<seq<NewForeignKey>> := Grouped(fkeys);
    GroupsAreTidy(fkeys);
    GroupsConserve(fkeys);
    if OneWay(fkeys) {
      forall i, k | 0 <= i < |groups| && 0 <= k < |groups[i]| ensures groups[i][k].table == groups[i][0].table {
        GroupMember(groups, i, k);
        GroupMember(groups, i, 0);
        assert groups[i][k] in fkeys && groups[i][0] in fkeys;
      }
    }
    if OneTableEach(groups) {
      forall f, g | f in fkeys && g in fkeys && TablesID(f) == TablesID(g) ensures f.table == g.table {
        assert f in multiset(fkeys) && g in multiset(fkeys);
        var i, k := MemberOfGroup(groups, f);
        var j, m := MemberOfGroup(groups, g);
        assert i == j;
      }
    }
  }

  lemma {:induction false} LaterIsTotal(a: string, b: string)
    ensures a != b ==> Later(a, b) != Later(b, a)
    ensures a == b ==> !Later(a, b)
  {
    if a == "" || b == "" {
    } else {
      LaterIsTotal(a[1..], b[1..]);
      assert a == [a[0]] + a[1..] && b == [b[0]] + b[1..];
    }
  }

  /** The tables come in one order by their schemas, and in the other by their names. */
  predicate Crossing(a: TableID, b: TableID) {
    (Later(a.schema, b.schema) && Later(b.name, a.name)) || (Later(b.schema, a.schema) && Later(a.name, b.name))
  }

  predicate Reversed(f: NewForeignKey, g: NewForeignKey) {
    f.table == g.reference.table && g.table == f.reference.table
  }

  /** Two foreign keys are taken for a pair exactly if they have the same tables in the same order, or in reverse
      and the tables do not cross. */
  lemma SamePairExactly(f: NewForeignKey, g: NewForeignKey)
    ensures TablesID(f) == TablesID(g) <==>
            || (f.table == g.table && f.reference.table == g.reference.table)
            || (Reversed(f, g) && !Crossing(f.table, g.table))
  {
    LaterIsTotal(f.table.schema, f.reference.table.schema);
    LaterIsTotal(f.table.name, f.reference.table.name);
  }

  /** Foreign keys go one way exactly if those that go to and fro are between tables that cross. */
  lemma OneWayExactly(fkeys: seq<NewForeignKey>)
    ensures OneWay(fkeys) <==>
            forall f, g :: f in fkeys && g in fkeys && Reversed(f, g) && f.table != g.table ==>
                Crossing(f.table, g.table)
  {
    forall f, g | f in fkeys && g in fkeys
      ensures TablesID(f) == TablesID(g) && f.table != g.table <==>
              Reversed(f, g) && f.table != g.table && !Crossing(f.table, g.table)
    {
      SamePairExactly(f, g);
    }
  }

  /** Two tables that refer to each other have a group together, which then is not of one table. */
  lemma ToAndFroIsNotOneWay(f: NewForeignKey, g: NewForeignKey)
    requires f.table == TableID("", "a") && f.reference.table == TableID("", "b")
    requires g.table == TableID("", "b") && g.reference.table == TableID("", "a")
    ensures Grouped([f, g]) == [[f, g]] && !OneWay([f, g]) && !OfTable(f.table, [f, g])
  {
    TwoNames();
    assert TablesID(f) == TablesID(g);
    GroupedTogether(f, g);
    assert [f, g][0] == f && [f, g][1] == g;
  }

  lemma TwoNames()
    ensures !Later("", "") && !Later("a", "b") && Later("b", "a")
  {
  }

  lemma GroupedTogether(f: NewForeignKey, g: NewForeignKey)
    requires TablesID(f) == TablesID(g)
    ensures Grouped([f, g]) == [[f, g]]
  {
    assert [f, g][..1] == [f] && [f][..0] == [] && [[f]][..0] == [];
    assert Grouped([f]) == [[f]];
    assert GroupOf([[f]], TablesID(g)) == Some(0);
    assert [f] + [g] == [f, g];
  }

  lemma {:induction false} GroupsAgree(db: Database, groups: seq<seq<NewForeignKey>>)
    requires NonEmpty(groups) && OneTableEach(groups)
    ensures Execute(db, GroupsInStages(groups)) == Execute(db, GroupsDirectly(groups))
    decreases |groups|
  {
    if groups == [] {
    } else {
      var g, rest := groups[0], groups[1..];
      GroupAgrees(db, g);
      ExecuteConcat(db, GroupInStages(g), GroupsInStages(rest));
      ExecuteConcat(db, GroupDirectly(g), GroupsDirectly(rest));
      match Execute(db, GroupDirectly(g))
      case None =>
      case Some(after) => GroupsAgree(after, rest);
    }
  }

  /** The stages come to what the direct changes come to, if they fit everywhere, and fail if they do not; provided that
      no key is deferrable and no two foreign keys go to and fro. */
  lemma StagesAgreeExactly(version: nat, db: Database, alters: seq<AlterTable>, fkeys: seq<NewForeignKey>)
    requires AllPlanned(version, db, alters) && DistinctTables(alters) && NoneDeferrable(alters) && OneWay(fkeys)
    ensures NonEmpty(Grouped(fkeys))
    ensures Execute(db, InStagesAll(version, alters, fkeys))
         == if AllFit(version, db, alters) then Execute(db, DirectlyAll(alters, fkeys)) else None
  {
    var groups := Grouped(fkeys);
    GroupsOfOneTableExactly(fkeys);
    AltersInStagesExactly(version, db, alters);
    ExecuteConcat(db, AltersInStages(version, alters), GroupsInStages(groups));
    ExecuteConcat(db, AltersDirectly(alters), GroupsDirectly(groups));
    match Execute(db, AltersDirectly(alters))
    case None =>
    case Some(mid) => GroupsAgree(mid, groups);
  }

  // ----- nothing is left behind -----

  predicate IsDirect(s: Statement) {
    match s
    case OnTable(_, e) => EditIsDirect(e)
    case AddForeignKey(_, _, _, valid) => valid
    case ValidateForeignKey(_, _) => false
  }

  predicate AllDirect(ss: seq<Statement>) {
    forall i :: 0 <= i < |ss| ==> IsDirect(ss[i])
  }

  predicate Creates(ss: seq<Statement>, id: TableID, n: string) {
    exists i :: 0 <= i < |ss| && IsCreation(ss[i], id, n)
  }

  predicate IsCreation(s: Statement, id: TableID, n: string) {
    s.OnTable? && s.table == id && s.edit.CreateIndex? && s.edit.name == n
  }

  /** What is new are keys, foreign keys that are valid, and the indexes that were to be created. */
  ghost predicate NothingLeft(t: Table, u: Table, ss: seq<Statement>, id: TableID) {
    && u.rows == t.rows
    && (forall n :: n in t.constraints ==> n in u.constraints && u.constraints[n] == t.constraints[n])
    && (forall n :: n in u.constraints && n !in t.constraints ==>
          u.constraints[n].Key? || (u.constraints[n].ForeignKey? && u.constraints[n].valid))
    && (forall n :: n in u.indexes && n !in t.indexes ==> Creates(ss, id, n))
  }

  lemma StepLeaves(db: Database, s: Statement, id: TableID)
    requires IsDirect(s) && id in db && Apply(db, s).Some?
    ensures id in Apply(db, s).value && NothingLeft(db[id], Apply(db, s).value[id], [s], id)
  {
    assert [s][0] == s;
  }

  lemma CreatesMore(ss: seq<Statement>, id: TableID, n: string)
    requires ss != []
    ensures Creates(ss, id, n) <==> Creates([ss[0]], id, n) || Creates(ss[1..], id, n)
  {
    assert [ss[0]][0] == ss[0];
    if i :| 0 <= i < |ss[1..]| && IsCreation(ss[1..][i], id, n) {
      assert ss[i + 1] == ss[1..][i];
    }
    if i :| 0 <= i < |ss| && IsCreation(ss[i], id, n) {
      assert i > 0 ==> ss[1..][i - 1] == ss[i];
    }
  }

  lemma {:induction false} DirectLeavesNothing(db: Database, ss: seq<Statement>, id: TableID)
    requires AllDirect(ss) && id in db && Execute(db, ss).Some?
    ensures id in Execute(db, ss).value && NothingLeft(db[id], Execute(db, ss).value[id], ss, id)
    decreases |ss|
  {
    if ss == [] {
    } else {
      var mid := Apply(db, ss[0]).value;
      StepLeaves(db, ss[0], id);
      DirectLeavesNothing(mid, ss[1..], id);
      LeftInTurn(db[id], mid[id], Execute(db, ss).value[id], ss, id);
    }
  }

  lemma LeftInTurn(t: Table, u: Table, v: Table, ss: seq<Statement>, id: TableID)
    requires ss != [] && NothingLeft(t, u, [ss[0]], id) && NothingLeft(u, v, ss[1..], id)
    ensures NothingLeft(t, v, ss, id)
  {
    forall n | n in v.indexes && n !in t.indexes ensures Creates(ss, id, n) {
      CreatesMore(ss, id, n);
    }
  }

  lemma {:induction false} AltersAreDirect(alters: seq<AlterTable>)
    ensures AllDirect(AltersDirectly(alters))
    decreases |alters|
  {
    if alters == [] {
    } else {
      AltersAreDirect(alters[1..]);
      EditsAreDirect(alters[0]);
    }
  }

  predicate EditIsDirect(e: Edit) {
    e.AlterColumn? || e.SetNotNull? || e.CreateIndex? || e.AddKey?
  }

  lemma EditsAreDirect(a: AlterTable)
    ensures forall i :: 0 <= i < |Directly(a)| ==> EditIsDirect(Directly(a)[i])
  {
    ColumnsAreDirect(a.table, a.alterColumns);
    IndexesAreDirect(a.createIndexes);
    KeysAreDirect(a.addKeys);
  }

  lemma {:induction false} ColumnsAreDirect(table: TableID, ps: seq<ColumnPair>)
    ensures forall i :: 0 <= i < |ColumnEdits(false, table, ps)| ==> EditIsDirect(ColumnEdits(false, table, ps)[i])
    decreases |ps|
  {
    if ps == [] {
    } else {
      ColumnsAreDirect(table, ps[1..]);
      PairIsDirect(table, ps[0]);
    }
  }

  lemma PairIsDirect(table: TableID, p: ColumnPair)
    ensures forall i :: 0 <= i < |PairEdits(false, table, p)| ==> EditIsDirect(PairEdits(false, table, p)[i])
  {
  }

  lemma {:induction false} IndexesAreDirect(xs: seq<(string, Index)>)
    ensures forall i :: 0 <= i < |CreateIndexes(xs)| ==> EditIsDirect(CreateIndexes(xs)[i])
    decreases |xs|
  {
    if xs == [] {
    } else {
      IndexesAreDirect(xs[1..]);
    }
  }

  lemma {:induction false} KeysAreDirect(ks: seq<NewKey>)
    ensures forall i :: 0 <= i < |AddKeys(ks)| ==> EditIsDirect(AddKeys(ks)[i])
    decreases |ks|
  {
    if ks == [] {
    } else {
      KeysAreDirect(ks[1..]);
    }
  }

  lemma {:induction false} GroupIsDirect(group: seq<NewForeignKey>)
    ensures AllDirect(GroupDirectly(group))
    decreases |group|
  {
    if group == [] {
    } else {
      GroupIsDirect(group[1..]);
    }
  }

  lemma {:induction false} GroupsAreDirect(groups: seq<seq<NewForeignKey>>)
    ensures AllDirect(GroupsDirectly(groups))
    decreases |groups|
  {
    if groups == [] {
    } else {
      GroupsAreDirect(groups[1..]);
      GroupIsDirect(groups[0]);
    }
  }

  /** After stages that go through, all that is new in a table are keys, valid foreign keys, and the indexes that
      were to be created: no check, no foreign key that is not valid, and no index of a key by itself. */
  lemma StagesLeaveNothing(version: nat, db: Database, alters: seq<AlterTable>, fkeys: seq<NewForeignKey>, id: TableID)
    requires AllPlanned(version, db, alters) && DistinctTables(alters) && NoneDeferrable(alters) && OneWay(fkeys)
    requires id in db && NonEmpty(Grouped(fkeys)) && Execute(db, InStagesAll(version, alters, fkeys)).Some?
    ensures var r := Execute(db, InStagesAll(version, alters, fkeys)).value;
            id in r && NothingLeft(db[id], r[id], DirectlyAll(alters, fkeys), id)
  {
    StagesAgreeExactly(version, db, alters, fkeys);
    AltersAreDirect(alters);
    GroupsAreDirect(Grouped(fkeys));
    DirectLeavesNothing(db, DirectlyAll(alters, fkeys), id);
  }
}
