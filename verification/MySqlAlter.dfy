/** One ALTER TABLE: its clauses go through one after another, and leave the table as the
    other catalog has it. */
module MySqlAlter {
  import opened Common
  import opened Catalogs
  import opened MySqlPlan
  import opened MySqlSql
  import opened MySqlDatabase

  // ----- each kind of clause -----

  lemma {:induction false} ConstraintDropsRun(cs: seq<Constraint>, ts: TableState)
    requires UniqueNames(cs)
    requires forall n :: n in Names(cs) ==> n in ts.constraints && IsKeyDef(ts.constraints[n])
    ensures ApplyAll(ConstraintDrops(cs), ts) == Some(ts.(constraints := ts.constraints - Names(cs)))
  {
    if cs == [] {
      assert ts.constraints - Names(cs) == ts.constraints;
    } else {
      var init, last := cs[..|cs| - 1], cs[|cs| - 1];
      WithoutLast(ts.constraints, cs);
      ConstraintDropsRun(init, ts);
      ApplyAllSnoc(ConstraintDrops(init), DropConstraint(last.name), ts,
                   ts.(constraints := ts.constraints - Names(init)));
    }
  }

  lemma {:induction false} IndexDropsRun(xs: seq<Index>, ts: TableState)
    requires UniqueNames(xs)
    requires Names(xs) <= ts.indexes.Keys
    ensures ApplyAll(IndexDrops(xs), ts) == Some(ts.(indexes := ts.indexes - Names(xs)))
  {
    if xs == [] {
      assert ts.indexes - Names(xs) == ts.indexes;
    } else {
      var init, last := xs[..|xs| - 1], xs[|xs| - 1];
      WithoutLast(ts.indexes, xs);
      IndexDropsRun(init, ts);
      ApplyAllSnoc(IndexDrops(init), DropIndex(last.name), ts, ts.(indexes := ts.indexes - Names(init)));
    }
  }

  lemma ColumnDropStep(ts: TableState, columns: map<string, ColumnDef>, name: string)
    requires name in columns && !ColumnUsed(ts, name)
    ensures Apply(DropColumn(name), ts.(columns := columns)) == Some(ts.(columns := columns - {name}))
  {
  }

  lemma {:induction false} ColumnDropsRun(cs: seq<Column>, ts: TableState)
    requires UniqueNames(cs)
    requires Names(cs) <= ts.columns.Keys && forall n {:trigger n in Names(cs)} :: n in Names(cs) ==> !ColumnUsed(ts, n)
    ensures ApplyAll(ColumnDrops(cs), ts) == Some(ts.(columns := ts.columns - Names(cs)))
  {
    if cs == [] {
      assert ts.columns - Names(cs) == ts.columns;
    } else {
      var init, last := cs[..|cs| - 1], cs[|cs| - 1];
      WithoutLast(ts.columns, cs);
      ColumnDropsRun(init, ts);
      ApplyAllSnoc(ColumnDrops(init), DropColumn(last.name), ts, ts.(columns := ts.columns - Names(init)));
      ColumnDropStep(ts, ts.columns - Names(init), last.name);
    }
  }

  lemma {:induction false} ColumnAddsRun(cs: seq<Column>, ts: TableState)
    requires Plain(cs) && Names(cs) !! ts.columns.Keys
    ensures ApplyAll(ColumnAdds(cs), ts) == Some(ts.(columns := ts.columns + StoredColumns(cs)))
  {
    if cs == [] {
      assert ts.columns + StoredColumns(cs) == ts.columns;
    } else {
      var init, last := cs[..|cs| - 1], cs[|cs| - 1];
      StoredLast(ts.columns, cs);
      ColumnAddsRun(init, ts);
      ApplyAllSnoc(ColumnAdds(init), AddColumn(last), ts, ts.(columns := ts.columns + StoredColumns(init)));
    }
  }

  /** The new definitions in a list of altered columns. */
  function Seconds(cs: seq<(Column, Column)>): (r: seq<Column>)
    ensures |r| == |cs|
    ensures forall i :: 0 <= i < |cs| ==> r[i] == cs[i].1
  {
    if cs == [] then [] else Seconds(cs[..|cs| - 1]) + [cs[|cs| - 1].1]
  }

  lemma {:induction false} ColumnChangesRun(cs: seq<(Column, Column)>, ts: TableState)
    requires Plain(Seconds(cs)) && Names(Seconds(cs)) <= ts.columns.Keys
    ensures ApplyAll(ColumnChanges(cs), ts) == Some(ts.(columns := ts.columns + StoredColumns(Seconds(cs))))
  {
    if cs == [] {
      assert ts.columns + StoredColumns(Seconds(cs)) == ts.columns;
    } else {
      var init, last := cs[..|cs| - 1], cs[|cs| - 1];
      assert Seconds(cs)[..|cs| - 1] == Seconds(init);
      StoredLast(ts.columns, Seconds(cs));
      ColumnChangesRun(init, ts);
      ApplyAllSnoc(ColumnChanges(init), ModifyColumn(last.1), ts,
                   ts.(columns := ts.columns + StoredColumns(Seconds(init))));
    }
  }

  lemma {:induction false} IndexAddsRun(xs: seq<Index>, ts: TableState)
    requires Plain(xs) && Names(xs) !! ts.indexes.Keys
    requires forall x :: x in xs ==> Has(ts, x.def.columns)
    ensures ApplyAll(IndexAdds(xs), ts) == Some(ts.(indexes := ts.indexes + Live(xs)))
  {
    if xs == [] {
      assert ts.indexes + Live(xs) == ts.indexes;
    } else {
      var init, last := xs[..|xs| - 1], xs[|xs| - 1];
      WithLast(ts.indexes, xs);
      IndexAddsRun(init, ts);
      ApplyAllSnoc(IndexAdds(init), AddIndex(last), ts, ts.(indexes := ts.indexes + Live(init)));
    }
  }

  lemma {:induction false} ConstraintAddsRun(cs: seq<Constraint>, ts: TableState)
    requires Plain(cs) && Names(cs) !! ts.constraints.Keys
    requires forall c :: c in cs ==> IsKey(c) && Has(ts, c.def.columns)
    requires OnePrimaryKey(ts.(constraints := ts.constraints + Live(cs)))
    ensures ApplyAll(ConstraintAdds(cs), ts) == Some(ts.(constraints := ts.constraints + Live(cs)))
  {
    if cs == [] {
      assert ts.constraints + Live(cs) == ts.constraints;
    } else {
      var init, last := cs[..|cs| - 1], cs[|cs| - 1];
      var mid := ts.(constraints := ts.constraints + Live(init));
      WithLast(ts.constraints, cs);
      FewerPrimaryKeys(mid, last.name, last.def);
      ConstraintAddsRun(init, ts);
      ApplyAllSnoc(ConstraintAdds(init), AddConstraint(last), ts, mid);
    }
  }

  lemma FewerPrimaryKeys(ts: TableState, name: string, def: ConstraintDef)
    requires name !in ts.constraints && OnePrimaryKey(ts.(constraints := ts.constraints[name := def]))
    ensures OnePrimaryKey(ts) && (def.constraintType == PrimaryKey ==> !HasPrimaryKey(ts))
  {
    var end := ts.(constraints := ts.constraints[name := def]);
    assert forall n :: n in ts.constraints && IsPrimaryKey(ts, n) ==> n in end.constraints && IsPrimaryKey(end, n);
    if def.constraintType == PrimaryKey {
      assert IsPrimaryKey(end, name);
    }
  }

  // ----- what the planner puts in the lists -----

  lemma {:induction false} KeysOfMember(cs: seq<Constraint>)
    requires Plain(cs)
    ensures Plain(KeysOf(cs))
    ensures forall c {:trigger c in KeysOf(cs)} {:trigger c in cs} :: c in KeysOf(cs) <==> c in cs && IsKey(c)
  {
    if cs == [] {
    } else {
      var init, last := cs[..|cs| - 1], cs[|cs| - 1];
      assert cs == init + [last];
      PlainInit(cs);
      KeysOfMember(init);
      forall i | 0 <= i < |KeysOf(init)| ensures KeysOf(init)[i].name != last.name {
        assert KeysOf(init)[i] in KeysOf(init);
      }
    }
  }

  /** The source's version of a primary key that dest has on other columns. */
  predicate Outdated(c: Constraint, dest: seq<Constraint>) {
    c.name in Live(dest) && Live(dest)[c.name].constraintType == PrimaryKey
        && Live(dest)[c.name].columns != c.def.columns
  }

  lemma OutdatedSnoc(c: Constraint, dest: seq<Constraint>, d: Constraint)
    requires Plain(dest + [d])
    ensures Outdated(c, dest + [d])
       <==> if c.name == d.name then d.def.constraintType == PrimaryKey && d.def.columns != c.def.columns
           else Outdated(c, dest)
    ensures c.name == d.name ==> !Outdated(c, dest)
  {
    assert (dest + [d])[..|dest|] == dest;
    NamesSnoc(dest, d);
    LiveInNames(dest);
  }

  lemma {:induction false} OldKeysMember(src: seq<Constraint>, dest: seq<Constraint>)
    requires Plain(src) && Plain(dest)
    ensures Plain(OldKeys(src, dest))
    ensures forall c {:trigger c in OldKeys(src, dest)} {:trigger c in src} ::
              c in OldKeys(src, dest) <==> c in src && Outdated(c, dest)
  {
    if dest == [] {
    } else {
      var init, last := dest[..|dest| - 1], dest[|dest| - 1];
      assert dest == init + [last];
      PlainInit(dest);
      OldKeysMember(src, init);
      FindIsLive(src, last.name);
      LiveOf(src);
      var before := OldKeys(src, init);
      forall i | 0 <= i < |before| ensures before[i].name != last.name {
        assert before[i] in before;
        OutdatedSnoc(before[i], init, last);
      }
      forall c | c in src ensures c in OldKeys(src, dest) <==> Outdated(c, dest) {
        OutdatedSnoc(c, init, last);
        assert Live(src)[c.name] == c.def;
      }
    }
  }

  /** A key that dest has and src does not, or a primary key that src has on other columns. */
  predicate Fresh(c: Constraint, src: seq<Constraint>) {
    if c.name in Live(src) then c.def.constraintType == PrimaryKey && Live(src)[c.name].columns != c.def.columns
    else IsKey(c)
  }

  lemma {:induction false} NewKeysMember(src: seq<Constraint>, dest: seq<Constraint>)
    requires Plain(src) && Plain(dest)
    ensures Plain(NewKeys(src, dest))
    ensures forall c {:trigger c in NewKeys(src, dest)} {:trigger c in dest} ::
              c in NewKeys(src, dest) <==> c in dest && Fresh(c, src)
  {
    if dest == [] {
    } else {
      var init, last := dest[..|dest| - 1], dest[|dest| - 1];
      assert dest == init + [last];
      PlainInit(dest);
      NewKeysMember(src, init);
      FindIsLive(src, last.name);
      forall i | 0 <= i < |NewKeys(src, init)| ensures NewKeys(src, init)[i].name != last.name {
        assert NewKeys(src, init)[i] in NewKeys(src, init);
      }
    }
  }

  /** The column is as wanted in all that is compared: its type and default, whether it takes nulls (but for the columns
      of a primary key), whether it has an identity, and its collation, which is the default one if none is given. */
  predicate SameColumn(collation: string, has: ColumnDef, wanted: ColumnDef) {
    && has.columnType == wanted.columnType && has.default == wanted.default
    && (!wanted.isPrimaryKey ==> has.isNotNull == wanted.isNotNull)
    && (has.identity == "" <==> wanted.identity == "")
    && (if has.collation != "" then has.collation else collation)
       == (if wanted.collation != "" then wanted.collation else collation)
  }

  /** The planner's comparison. */
  lemma DifferExactly(collation: string, src: ColumnDef, dest: ColumnDef)
    ensures ColumnsDiffer(collation, src, dest) <==> !SameColumn(collation, src, dest)
  {
  }

  /** A column that src has with another definition. */
  predicate Changed(collation: string, src: seq<Column>, c: Column) {
    c.name in Live(src) && !SameColumn(collation, Live(src)[c.name], c.def)
  }

  lemma AlteredSnoc(collation: string, src: seq<Column>, dest: seq<Column>, c: Column)
    requires Plain(src) && !c.ignore
    ensures Seconds(Altered(collation, src, dest + [c]))
         == Seconds(Altered(collation, src, dest)) + (if Changed(collation, src, c) then [c] else [])
  {
    assert (dest + [c])[..|dest|] == dest;
    FindIsLive(src, c.name);
    var before := Altered(collation, src, dest);
    if Changed(collation, src, c) {
      var pair := (Find(src, c.name).value, c);
      assert (before + [pair])[..|before|] == before;
    }
  }

  lemma {:induction false} AlteredMember(collation: string, src: seq<Column>, dest: seq<Column>)
    requires Plain(src) && Plain(dest)
    ensures Plain(Seconds(Altered(collation, src, dest)))
    ensures forall c {:trigger c in Seconds(Altered(collation, src, dest))} {:trigger c in dest} ::
              c in Seconds(Altered(collation, src, dest)) <==> c in dest && Changed(collation, src, c)
  {
    if dest == [] {
    } else {
      var init, last := dest[..|dest| - 1], dest[|dest| - 1];
      assert dest == init + [last];
      PlainInit(dest);
      AlteredMember(collation, src, init);
      AlteredSnoc(collation, src, init, last);
      var before := Seconds(Altered(collation, src, init));
      forall i | 0 <= i < |before| ensures before[i].name != last.name {
        assert before[i] in before;
      }
    }
  }

  // ----- all of them -----

  /** The table that an ALTER TABLE leaves. */
  function AfterAlter(ts: TableState, a: AlterTable): TableState {
    TableState(
      (ts.columns - Names(a.dropColumns)) + StoredColumns(a.addColumns) + StoredColumns(Seconds(a.alterColumns)),
      (ts.constraints - Names(a.dropConstraints)) + Live(a.addConstraints),
      (ts.indexes - Names(a.dropIndexes)) + Live(a.createIndexes))
  }

  /** The table a catalog describes. */
  function StateOf(d: TableDef): TableState {
    TableState(StoredColumns(d.columns), Live(d.constraints), Live(d.indexes))
  }

  /** Constraints and indexes name columns of the table, and there is at most one primary key. */
  ghost predicate SoundTable(ts: TableState) {
    && (forall n :: n in ts.constraints ==> Has(ts, ts.constraints[n].columns))
    && (forall n :: n in ts.indexes ==> Has(ts, ts.indexes[n].columns))
    && OnePrimaryKey(ts)
  }

  ghost predicate TableOk(d: TableDef) {
    && Plain(d.columns) && Plain(d.constraints) && Plain(d.indexes)
    && (forall n :: n in Live(d.columns) ==> Live(d.columns)[n].identity == "")
    && SoundTable(StateOf(d))
  }

  /** Objects of the same name are the same, except that a primary key can be on other
      columns; and the CHECKs of src use no column that dest does not have. */
  ghost predicate AgreeTable(src: TableState, dest: TableState) {
    && (forall n :: n in src.constraints && n in dest.constraints ==>
       SameConstraint(src.constraints[n], dest.constraints[n]))
    && (forall n :: n in src.indexes && n in dest.indexes ==> src.indexes[n] == dest.indexes[n])
    && (forall n :: n in src.constraints && src.constraints[n].constraintType == Check ==>
       Has(dest, src.constraints[n].columns))
  }

  predicate SameConstraint(src: ConstraintDef, dest: ConstraintDef) {
    src == dest || (src.constraintType == PrimaryKey && dest.constraintType == PrimaryKey
        && src.columns != dest.columns)
  }

  /** A foreign key that dest does not have. */
  predicate OldFkey(src: TableState, dest: TableState, n: string) {
    n in src.constraints && src.constraints[n].constraintType == ForeignKey && n !in dest.constraints
  }

  /** Table src once the foreign keys that dest does not have are gone. */
  function Unlinked(src: TableState, dest: TableState): TableState {
    src.(constraints := map n | n in src.constraints && !OldFkey(src, dest, n) :: src.constraints[n])
  }

  /** The constraints dropped by the ALTER TABLE. */
  lemma DropsOf(src: seq<Constraint>, dest: seq<Constraint>)
    requires Plain(src) && Plain(dest)
    ensures UniqueNames(KeysOf(Missing(src, dest)) + OldKeys(src, dest))
    ensures forall n :: n in Names(KeysOf(Missing(src, dest)) + OldKeys(src, dest)) <==>
              n in Live(src)
                  && (if n in Live(dest) then Outdated(Object(n, false, Live(src)[n]), dest)
                     else IsKeyDef(Live(src)[n]))
  {
    var keys, outdated := KeysOf(Missing(src, dest)), OldKeys(src, dest);
    MissingMember(src, dest);
    KeysOfMember(Missing(src, dest));
    OldKeysMember(src, dest);
    NamesConcat(keys, outdated);
    forall n
      ensures n in Names(keys + outdated) <==>
        n in Live(src)
            && (if n in Live(dest) then Outdated(Object(n, false, Live(src)[n]), dest) else IsKeyDef(Live(src)[n]))
    {
      LiveOfPart(src, keys, n);
      LiveOfPart(src, outdated, n);
    }
    forall i, k | 0 <= i < |keys| && 0 <= k < |outdated| ensures keys[i].name != outdated[k].name {
      assert keys[i] in keys && outdated[k] in outdated;
    }
  }

  /** What is left of the constraints of src: its CHECKs, and what dest has the same. */
  lemma RemainingConstraints(src: TableDef, dest: TableDef, n: string)
    requires TableOk(src) && TableOk(dest) && AgreeTable(StateOf(src), StateOf(dest))
    ensures var s, d := StateOf(src).constraints, StateOf(dest).constraints;
      n in Unlinked(StateOf(src), StateOf(dest)).constraints
           - Names(KeysOf(Missing(src.constraints, dest.constraints)) + OldKeys(src.constraints, dest.constraints))
      <==> n in s && (s[n].constraintType == Check || (n in d && s[n] == d[n]))
  {
    DropsOf(src.constraints, dest.constraints);
    var s, d := StateOf(src).constraints, StateOf(dest).constraints;
    assert n in s && n in d ==> SameConstraint(s[n], d[n]);
  }

  /** The constraints of a table that both catalogs have, before foreign keys are added:
      those of dest that are keys or that src had already, and the CHECKs of src. */
  predicate InMerged(src: TableState, dest: TableState, n: string) {
    || (n in src.constraints && src.constraints[n].constraintType == Check)
    || (n in dest.constraints && (n in src.constraints || IsKeyDef(dest.constraints[n])))
  }

  function Merged(src: TableState, dest: TableState): map<string, ConstraintDef> {
    map n | n in src.constraints.Keys + dest.constraints.Keys && InMerged(src, dest, n) ::
      if n in dest.constraints then dest.constraints[n] else src.constraints[n]
  }

  function ConstraintsAfter(left: map<string, ConstraintDef>, src: seq<Constraint>,
                            dest: seq<Constraint>): map<string, ConstraintDef> {
    (left - Names(KeysOf(Missing(src, dest)) + OldKeys(src, dest))) + Live(NewKeys(src, dest))
  }

  predicate SameAt(a: map<string, ConstraintDef>, b: map<string, ConstraintDef>, n: string) {
    (n in a <==> n in b) && (n in a ==> a[n] == b[n])
  }

  lemma ConstraintAfter(src: TableDef, dest: TableDef, n: string)
    requires TableOk(src) && TableOk(dest) && AgreeTable(StateOf(src), StateOf(dest))
    ensures SameAt(ConstraintsAfter(Unlinked(StateOf(src), StateOf(dest)).constraints, src.constraints,
                                    dest.constraints),
                   Merged(StateOf(src), StateOf(dest)), n)
  {
    var s, d := StateOf(src), StateOf(dest);
    RemainingConstraints(src, dest, n);
    NewKeysMember(src.constraints, dest.constraints);
    LiveOfPart(dest.constraints, NewKeys(src.constraints, dest.constraints), n);
    assert n in s.constraints && n in d.constraints ==> SameConstraint(s.constraints[n], d.constraints[n]);
  }

  lemma ConstraintsReached(src: TableDef, dest: TableDef)
    requires TableOk(src) && TableOk(dest) && AgreeTable(StateOf(src), StateOf(dest))
    ensures ConstraintsAfter(Unlinked(StateOf(src), StateOf(dest)).constraints, src.constraints, dest.constraints)
         == Merged(StateOf(src), StateOf(dest))
  {
    forall n
      ensures SameAt(ConstraintsAfter(Unlinked(StateOf(src), StateOf(dest)).constraints, src.constraints,
                                      dest.constraints),
                     Merged(StateOf(src), StateOf(dest)), n)
    {
      ConstraintAfter(src, dest, n);
    }
    SameEverywhere(ConstraintsAfter(Unlinked(StateOf(src), StateOf(dest)).constraints, src.constraints,
                                    dest.constraints),
                   Merged(StateOf(src), StateOf(dest)));
  }

  lemma SameEverywhere(a: map<string, ConstraintDef>, b: map<string, ConstraintDef>)
    requires forall n :: SameAt(a, b, n)
    ensures a == b
  {
    assert forall n :: n in a ==> SameAt(a, b, n);
    assert forall n :: n in b ==> SameAt(a, b, n);
  }

  lemma MissingPart<T(!new)>(xs: seq<Object<T>>, others: seq<Object<T>>, n: string)
    requires Plain(xs) && Plain(others)
    ensures Names(Missing(xs, others)) == Live(Missing(xs, others)).Keys
    ensures n in Live(Missing(xs, others)) <==> n in Live(xs) && n !in Live(others)
    ensures n in Live(Missing(xs, others)) ==> Live(Missing(xs, others))[n] == Live(xs)[n]
  {
    MissingMember(xs, others);
    LiveOfPart(xs, Missing(xs, others), n);
  }

  lemma IndexesReached(id: TableID, collation: string, src: TableDef, dest: TableDef)
    requires TableOk(src) && TableOk(dest) && AgreeTable(StateOf(src), StateOf(dest))
    ensures AfterAlter(Unlinked(StateOf(src), StateOf(dest)), Alter(id, collation, src, dest, true)).indexes
        == StateOf(dest).indexes
  {
    var s, d := StateOf(src), StateOf(dest);
    var after := AfterAlter(Unlinked(s, d), Alter(id, collation, src, dest, true)).indexes;
    forall n
      ensures n in after <==> n in d.indexes
      ensures n in after ==> after[n] == d.indexes[n]
    {
      MissingPart(src.indexes, dest.indexes, n);
      MissingPart(dest.indexes, src.indexes, n);
    }
  }

  /** The columns have the definitions of dest, as far as the planner compares them. */
  ghost predicate SameColumns(collation: string, src: map<string, ColumnDef>, dest: map<string, ColumnDef>) {
    src.Keys == dest.Keys && forall n :: n in dest ==> SameColumn(collation, src[n], dest[n])
  }

  lemma AlteredPart(collation: string, src: seq<Column>, dest: seq<Column>, n: string)
    requires Plain(src) && Plain(dest)
    ensures var part := Live(Seconds(Altered(collation, src, dest)));
      && (n in part <==> n in Live(dest) && n in Live(src) && !SameColumn(collation, Live(src)[n], Live(dest)[n]))
      && (n in part ==> part[n] == Live(dest)[n])
  {
    AlteredMember(collation, src, dest);
    LiveOfPart(dest, Seconds(Altered(collation, src, dest)), n);
  }

  predicate NoIdentity(columns: seq<Column>, n: string) {
    n in Live(columns) ==> Live(columns)[n].identity == ""
  }

  function ColumnsAfter(collation: string, src: seq<Column>, dest: seq<Column>): map<string, ColumnDef> {
    (StoredColumns(src) - Names(Missing(src, dest))) + StoredColumns(Missing(dest, src))
    + StoredColumns(Seconds(Altered(collation, src, dest)))
  }

  lemma ColumnAfter(collation: string, src: seq<Column>, dest: seq<Column>, n: string)
    requires Plain(src) && Plain(dest) && NoIdentity(src, n) && NoIdentity(dest, n)
    ensures n in ColumnsAfter(collation, src, dest) <==> n in Live(dest)
    ensures n in Live(dest) ==> SameColumn(collation, ColumnsAfter(collation, src, dest)[n], Live(dest)[n])
  {
    MissingPart(src, dest, n);
    MissingPart(dest, src, n);
    AlteredPart(collation, src, dest, n);
  }

  lemma ColumnsReached(collation: string, src: TableDef, dest: TableDef)
    requires TableOk(src) && TableOk(dest)
    ensures SameColumns(collation, ColumnsAfter(collation, src.columns, dest.columns), Live(dest.columns))
  {
    var after, d := ColumnsAfter(collation, src.columns, dest.columns), Live(dest.columns);
    forall n ensures (n in after <==> n in d) && (n in d ==> SameColumn(collation, after[n], d[n])) {
      assert NoIdentity(src.columns, n) && NoIdentity(dest.columns, n);
      ColumnAfter(collation, src.columns, dest.columns, n);
    }
  }

  // ----- running the ALTER TABLE -----

  function AfterDrops(ts: TableState, a: AlterTable): TableState {
    TableState(ts.columns - Names(a.dropColumns), ts.constraints - Names(a.dropConstraints),
               ts.indexes - Names(a.dropIndexes))
  }

  lemma DropClausesRun(a: AlterTable, ts: TableState)
    requires UniqueNames(a.dropConstraints) && UniqueNames(a.dropIndexes) && UniqueNames(a.dropColumns)
    requires forall n :: n in Names(a.dropConstraints) ==> n in ts.constraints && IsKeyDef(ts.constraints[n])
    requires Names(a.dropIndexes) <= ts.indexes.Keys
    requires Names(a.dropColumns) <= ts.columns.Keys
    requires forall n {:trigger n in Names(a.dropColumns)} :: n in Names(a.dropColumns) ==>
        !ColumnUsed(AfterDrops(ts, a), n)
    ensures ApplyAll(DropClauses(a), ts) == Some(AfterDrops(ts, a))
  {
    var t1 := ts.(constraints := ts.constraints - Names(a.dropConstraints));
    var t2 := t1.(indexes := ts.indexes - Names(a.dropIndexes));
    ConstraintDropsRun(a.dropConstraints, ts);
    IndexDropsRun(a.dropIndexes, t1);
    ColumnDropsRun(a.dropColumns, t2);
    ApplyAllConcat(ConstraintDrops(a.dropConstraints), IndexDrops(a.dropIndexes), ts);
    ApplyAllConcat(ConstraintDrops(a.dropConstraints) + IndexDrops(a.dropIndexes), ColumnDrops(a.dropColumns), ts);
  }

  /** What an ALTER TABLE adds is not there yet, and fits the table it ends with. */
  ghost predicate Addable(a: AlterTable, ts: TableState, after: TableState) {
    ColumnsFit(a, ts) && IndexesFit(a, ts, after) && KeysFit(a, ts, after) && OnePrimaryKey(after)
  }

  ghost predicate ColumnsFit(a: AlterTable, ts: TableState) {
    && Plain(a.addColumns) && Names(a.addColumns) !! ts.columns.Keys
    && Plain(Seconds(a.alterColumns)) && Names(Seconds(a.alterColumns)) <= ts.columns.Keys
  }

  ghost predicate IndexesFit(a: AlterTable, ts: TableState, after: TableState) {
    && Plain(a.createIndexes) && Names(a.createIndexes) !! ts.indexes.Keys
    && forall x :: x in a.createIndexes ==> Has(after, x.def.columns)
  }

  ghost predicate KeysFit(a: AlterTable, ts: TableState, after: TableState) {
    && Plain(a.addConstraints) && Names(a.addConstraints) !! ts.constraints.Keys
    && forall c :: c in a.addConstraints ==> IsKey(c) && Has(after, c.def.columns)
  }

  lemma AddClausesRun(a: AlterTable, ts: TableState, after: TableState)
    requires Addable(a, ts, after)
    requires after == TableState(ts.columns + StoredColumns(a.addColumns) + StoredColumns(Seconds(a.alterColumns)),
                                 ts.constraints + Live(a.addConstraints), ts.indexes + Live(a.createIndexes))
    ensures ApplyAll(AddClauses(a), ts) == Some(after)
  {
    var t1 := ts.(columns := ts.columns + StoredColumns(a.addColumns));
    var t2 := ts.(columns := after.columns);
    var t3 := t2.(indexes := after.indexes);
    var c1, c2, c3, c4 := ColumnAdds(a.addColumns), ColumnChanges(a.alterColumns), IndexAdds(a.createIndexes),
        ConstraintAdds(a.addConstraints);
    ColumnAddsRun(a.addColumns, ts);
    ColumnChangesRun(a.alterColumns, t1);
    assert forall x :: x in a.createIndexes ==> Has(t2, x.def.columns);
    IndexAddsRun(a.createIndexes, t2);
    assert forall c :: c in a.addConstraints ==> Has(t3, c.def.columns);
    ConstraintAddsRun(a.addConstraints, t3);
    ApplyAllConcat(c1, c2, ts);
    ApplyAllConcat(c1 + c2, c3, ts);
    ApplyAllConcat(c1 + c2 + c3, c4, ts);
  }

  /** What is left uses no column that is dropped. */
  lemma DroppedColumnUnused(id: TableID, collation: string, src: TableDef, dest: TableDef, column: string)
    requires TableOk(src) && TableOk(dest) && AgreeTable(StateOf(src), StateOf(dest))
    requires column !in Live(dest.columns)
    ensures !ColumnUsed(AfterDrops(Unlinked(StateOf(src), StateOf(dest)), Alter(id, collation, src, dest, true)),
                        column)
  {
    var s, d := StateOf(src), StateOf(dest);
    var left := AfterDrops(Unlinked(s, d), Alter(id, collation, src, dest, true));
    forall n | n in left.constraints ensures column !in left.constraints[n].columns {
      RemainingConstraints(src, dest, n);
      assert Has(d, left.constraints[n].columns);
    }
    forall n | n in left.indexes ensures column !in left.indexes[n].columns {
      MissingPart(src.indexes, dest.indexes, n);
      assert Has(d, left.indexes[n].columns);
    }
  }

  lemma DropsRun(id: TableID, collation: string, src: TableDef, dest: TableDef)
    requires TableOk(src) && TableOk(dest) && AgreeTable(StateOf(src), StateOf(dest))
    ensures var a, ts := Alter(id, collation, src, dest, true), Unlinked(StateOf(src), StateOf(dest));
      ApplyAll(DropClauses(a), ts) == Some(AfterDrops(ts, a))
  {
    var s, d := StateOf(src), StateOf(dest);
    var a, ts := Alter(id, collation, src, dest, true), Unlinked(s, d);
    DropsOf(src.constraints, dest.constraints);
    forall n | n in Names(a.dropConstraints) ensures n in ts.constraints && IsKeyDef(ts.constraints[n]) {
      assert n in d.constraints ==> SameConstraint(s.constraints[n], d.constraints[n]);
    }
    MissingMember(src.indexes, dest.indexes);
    forall n | n in Names(a.dropIndexes) ensures n in ts.indexes {
      MissingPart(src.indexes, dest.indexes, n);
    }
    MissingMember(src.columns, dest.columns);
    forall n | n in Names(a.dropColumns) ensures n in ts.columns && !ColumnUsed(AfterDrops(ts, a), n) {
      MissingPart(src.columns, dest.columns, n);
      DroppedColumnUnused(id, collation, src, dest, n);
    }
    DropClausesRun(a, ts);
  }

  lemma MergedIsSound(src: TableState, dest: TableState, after: TableState)
    requires SoundTable(dest) && AgreeTable(src, dest)
    requires after.constraints == Merged(src, dest) && after.indexes == dest.indexes
    requires after.columns.Keys == dest.columns.Keys
    ensures SoundTable(after)
  {
    forall n | n in after.constraints ensures Has(after, after.constraints[n].columns) {
      if n in dest.constraints {
        assert Has(dest, dest.constraints[n].columns);
      } else {
        assert Has(dest, src.constraints[n].columns);
      }
    }
    forall n | n in after.indexes ensures Has(after, after.indexes[n].columns) {
      assert Has(dest, dest.indexes[n].columns);
    }
    forall n | n in after.constraints && IsPrimaryKey(after, n) ensures n in dest.constraints && IsPrimaryKey(dest, n) {
    }
  }

  lemma AfterReached(id: TableID, collation: string, src: TableDef, dest: TableDef)
    requires TableOk(src) && TableOk(dest) && AgreeTable(StateOf(src), StateOf(dest))
    ensures var after := AfterAlter(Unlinked(StateOf(src), StateOf(dest)), Alter(id, collation, src, dest, true));
      && after.constraints == Merged(StateOf(src), StateOf(dest))
      && after.indexes == Live(dest.indexes)
      && SameColumns(collation, after.columns, Live(dest.columns))
      && SoundTable(after)
  {
    ConstraintsReached(src, dest);
    IndexesReached(id, collation, src, dest);
    ColumnsReached(collation, src, dest);
    MergedIsSound(StateOf(src), StateOf(dest),
                  AfterAlter(Unlinked(StateOf(src), StateOf(dest)), Alter(id, collation, src, dest, true)));
  }

  lemma ColumnsAddable(a: AlterTable, src: TableDef, dest: TableDef, collation: string)
    requires Plain(src.columns) && Plain(dest.columns)
    requires a == Alter(a.id, collation, src, dest, true)
    ensures ColumnsFit(a, AfterDrops(Unlinked(StateOf(src), StateOf(dest)), a))
  {
    MissingMember(dest.columns, src.columns);
    AlteredMember(collation, src.columns, dest.columns);
    NamesOfLive(Seconds(a.alterColumns));
    var left := AfterDrops(Unlinked(StateOf(src), StateOf(dest)), a).columns;
    forall n ensures n in Names(a.addColumns) ==> n !in left {
      MissingPart(dest.columns, src.columns, n);
    }
    forall n ensures n in Names(Seconds(a.alterColumns)) ==> n in left {
      MissingPart(src.columns, dest.columns, n);
      AlteredPart(collation, src.columns, dest.columns, n);
    }
  }

  lemma IndexesAddable(a: AlterTable, src: TableDef, dest: TableDef, after: TableState)
    requires Plain(src.indexes) && Plain(dest.indexes) && a.createIndexes == Missing(dest.indexes, src.indexes)
    requires after.indexes == Live(dest.indexes) && SoundTable(after)
    ensures IndexesFit(a, AfterDrops(Unlinked(StateOf(src), StateOf(dest)), a), after)
  {
    MissingMember(dest.indexes, src.indexes);
    forall n | n in Names(a.createIndexes) ensures n !in Live(src.indexes) {
      MissingPart(dest.indexes, src.indexes, n);
    }
    LiveOf(dest.indexes);
    forall x | x in a.createIndexes ensures Has(after, x.def.columns) {
      assert x in dest.indexes;
      assert after.indexes[x.name] == x.def;
    }
  }

  lemma KeysAddable(a: AlterTable, src: TableDef, dest: TableDef, collation: string, after: TableState)
    requires TableOk(src) && TableOk(dest) && AgreeTable(StateOf(src), StateOf(dest))
    requires a == Alter(a.id, collation, src, dest, true)
    requires after.columns.Keys == Live(dest.columns).Keys
    ensures KeysFit(a, AfterDrops(Unlinked(StateOf(src), StateOf(dest)), a), after)
  {
    NewKeysMember(src.constraints, dest.constraints);
    var left := AfterDrops(Unlinked(StateOf(src), StateOf(dest)), a).constraints;
    forall n | n in Names(a.addConstraints) ensures n !in left {
      LiveOfPart(dest.constraints, a.addConstraints, n);
      RemainingConstraints(src, dest, n);
    }
    LiveOf(dest.constraints);
    forall c | c in a.addConstraints ensures IsKey(c) && Has(after, c.def.columns) {
      assert c in dest.constraints;
      assert Has(StateOf(dest), StateOf(dest).constraints[c.name].columns);
    }
  }

  lemma AddsRun(a: AlterTable, src: TableDef, dest: TableDef, collation: string)
    requires TableOk(src) && TableOk(dest) && AgreeTable(StateOf(src), StateOf(dest))
    requires a == Alter(a.id, collation, src, dest, true)
    ensures var ts := Unlinked(StateOf(src), StateOf(dest));
      ApplyAll(AddClauses(a), AfterDrops(ts, a)) == Some(AfterAlter(ts, a))
  {
    var ts := Unlinked(StateOf(src), StateOf(dest));
    AfterReached(a.id, collation, src, dest);
    ColumnsAddable(a, src, dest, collation);
    IndexesAddable(a, src, dest, AfterAlter(ts, a));
    KeysAddable(a, src, dest, collation, AfterAlter(ts, a));
    AddClausesRun(a, AfterDrops(ts, a), AfterAlter(ts, a));
  }

  /** The ALTER TABLE goes through, and makes the table what dest says. */
  lemma AlterReaches(id: TableID, collation: string, src: TableDef, dest: TableDef)
    requires TableOk(src) && TableOk(dest) && AgreeTable(StateOf(src), StateOf(dest))
    ensures var a, ts := Alter(id, collation, src, dest, true), Unlinked(StateOf(src), StateOf(dest));
      && ApplyAll(Clauses(a), ts) == Some(AfterAlter(ts, a))
      && AfterAlter(ts, a).constraints == Merged(StateOf(src), StateOf(dest))
      && AfterAlter(ts, a).indexes == Live(dest.indexes)
      && SameColumns(collation, AfterAlter(ts, a).columns, Live(dest.columns))
  {
    var a, ts := Alter(id, collation, src, dest, true), Unlinked(StateOf(src), StateOf(dest));
    DropsRun(id, collation, src, dest);
    AddsRun(a, src, dest, collation);
    AfterReached(id, collation, src, dest);
    ApplyAllConcat(DropClauses(a), AddClauses(a), ts);
  }
}
