/** What Postgres itself keeps, whatever statements are run: what is NOT NULL or checked has no nulls, keys and unique
    indexes tell rows apart, no table has two primary keys, and rows have the parents that valid foreign keys ask for. */
module PostgresSound {
  import opened Common
  import opened PostgresTables

  // ----- rows -----

  /** The row has a value in the column. */
  predicate Filled(r: Record, c: string) {
    c in r && r[c] != None
  }

  ghost predicate AllFilled(rows: seq<Record>, c: string) {
    forall r :: r in rows ==> Filled(r, c)
  }

  /** The rows differ in one of the columns, or one has a null there. */
  predicate Differ(r: Record, s: Record, cs: seq<string>) {
    exists c :: c in cs && !(Filled(r, c) && Filled(s, c) && r[c] == s[c])
  }

  ghost predicate ToldApart(rows: seq<Record>, cs: seq<string>) {
    forall i, k :: 0 <= i < k < |rows| ==> Differ(rows[i], rows[k], cs)
  }

  /** The values that refer are those of the other row, or one of them is a null. */
  predicate RefersTo(r: Record, cs: seq<string>, s: Record, ds: seq<string>)
    requires |cs| == |ds|
  {
    forall k :: 0 <= k < |cs| ==> Filled(r, cs[k]) && Filled(s, ds[k]) && r[cs[k]] == s[ds[k]]
  }

  ghost predicate Parented(rows: seq<Record>, cs: seq<string>, parents: seq<Record>, ds: seq<string>)
    requires |cs| == |ds|
  {
    forall r :: r in rows ==>
      (exists c :: c in cs && !Filled(r, c)) || (exists s :: s in parents && RefersTo(r, cs, s, ds))
  }

  // ----- tables and databases -----

  ghost predicate ConstraintHolds(t: Table, c: Constraint) {
    match c
    case NotNullCheck(column, valid) => valid ==> AllFilled(t.rows, column)
    case Key(keyType, columns, _) =>
      && (forall x :: x in columns ==> x in t.columns && (keyType == PrimaryKey ==> t.columns[x].notNull))
      && ToldApart(t.rows, columns)
    case ForeignKey(_, _) => true
  }

  predicate IsPrimary(t: Table, n: string) {
    n in t.constraints && t.constraints[n].Key? && t.constraints[n].keyType == PrimaryKey
  }

  ghost predicate OnePrimary(t: Table) {
    forall n, k :: IsPrimary(t, n) && IsPrimary(t, k) ==> n == k
  }

  ghost predicate TableSound(t: Table) {
    && OnePrimary(t)
    && (forall c :: c in t.columns && t.columns[c].notNull ==> AllFilled(t.rows, c))
    && (forall c :: c in t.columns && t.columns[c].identity ==> t.columns[c].notNull && t.columns[c].default == "")
    && (forall n :: n in t.constraints ==> ConstraintHolds(t, t.constraints[n]))
    && (forall n :: n in t.indexes ==>
          && (forall x :: x in t.indexes[n].columns ==> x in t.columns)
          && (t.indexes[n].isUnique ==> ToldApart(t.rows, t.indexes[n].columns)))
  }

  ghost predicate ForeignKeyHolds(db: Database, id: TableID, reference: Reference)
    requires id in db
  {
    && |reference.columns| == |reference.referenced| && reference.table in db
    && Parented(db[id].rows, reference.columns, db[reference.table].rows, reference.referenced)
  }

  ghost predicate Sound(db: Database) {
    && (forall id :: id in db ==> TableSound(db[id]))
    && (forall id, n {:trigger db[id].constraints[n]} ::
          id in db && n in db[id].constraints && db[id].constraints[n].ForeignKey? && db[id].constraints[n].valid ==>
            ForeignKeyHolds(db, id, db[id].constraints[n].reference))
  }

  // ----- what is checked -----

  lemma NullsExactly(t: Table, c: string)
    ensures HasNull(t, c) <==> !AllFilled(t.rows, c)
  {
    if !HasNull(t, c) {
      forall r | r in t.rows ensures Filled(r, c) {
        var i: nat :| i < |t.rows| && t.rows[i] == r;
      }
    }
    if AllFilled(t.rows, c) {
      forall i | 0 <= i < |t.rows| ensures Get(t.rows[i], c) != None {
        assert t.rows[i] in t.rows;
      }
    }
  }

  lemma DuplicatesExactly(t: Table, cs: seq<string>)
    ensures HasDuplicates(t, cs) <==> !ToldApart(t.rows, cs)
  {
    forall i, k | 0 <= i < k < |t.rows|
      ensures SameValues(t.rows[i], cs, t.rows[k], cs) <==> !Differ(t.rows[i], t.rows[k], cs)
    {
      DifferExactly(t.rows[i], t.rows[k], cs);
    }
  }

  lemma DifferExactly(r: Record, s: Record, cs: seq<string>)
    ensures SameValues(r, cs, s, cs) <==> !Differ(r, s, cs)
  {
    if SameValues(r, cs, s, cs) {
      forall c | c in cs ensures Filled(r, c) && Filled(s, c) && r[c] == s[c] {
        var k: nat :| k < |cs| && cs[k] == c;
      }
    } else {
      var k: nat :| k < |cs| && !(Get(r, cs[k]).Some? && Get(r, cs[k]) == Get(s, cs[k]));
      assert cs[k] in cs;
    }
  }

  lemma ParentExactly(r: Record, reference: Reference, parents: seq<Record>)
    requires |reference.columns| == |reference.referenced|
    ensures HasParent(r, reference, parents)
       <==> || (exists c :: c in reference.columns && !Filled(r, c))
            || (exists s :: s in parents && RefersTo(r, reference.columns, s, reference.referenced))
  {
    var cs, ds := reference.columns, reference.referenced;
    if k :| 0 <= k < |cs| && Get(r, cs[k]) == None {
      assert cs[k] in cs && !Filled(r, cs[k]);
    }
    if c :| c in cs && !Filled(r, c) {
      var k: nat :| k < |cs| && cs[k] == c;
      assert Get(r, cs[k]) == None;
    }
    if i :| 0 <= i < |parents| && SameValues(r, cs, parents[i], ds) {
      assert parents[i] in parents && RefersTo(r, cs, parents[i], ds);
    }
    if s :| s in parents && RefersTo(r, cs, s, ds) {
      var i: nat :| i < |parents| && parents[i] == s;
      assert SameValues(r, cs, parents[i], ds);
    }
  }

  lemma DanglingExactly(db: Database, id: TableID, reference: Reference)
    requires id in db && reference.table in db && |reference.columns| == |reference.referenced|
    ensures Dangling(db, id, reference) <==> !ForeignKeyHolds(db, id, reference)
  {
    var parents := db[reference.table].rows;
    forall r ensures HasParent(r, reference, parents)
       <==> || (exists c :: c in reference.columns && !Filled(r, c))
            || (exists s :: s in parents && RefersTo(r, reference.columns, s, reference.referenced)) {
      ParentExactly(r, reference, parents);
    }
    if !Dangling(db, id, reference) {
      forall r | r in db[id].rows ensures HasParent(r, reference, parents) {
        var i: nat :| i < |db[id].rows| && db[id].rows[i] == r;
      }
    } else {
      var i: nat :| i < |db[id].rows| && !HasParent(db[id].rows[i], reference, parents);
      assert db[id].rows[i] in db[id].rows;
    }
  }

  // ----- what statements keep -----

  lemma NoNulls(t: Table, cs: seq<string>)
    requires !AnyNull(t, cs)
    ensures forall c :: c in cs ==> AllFilled(t.rows, c)
  {
    forall c | c in cs ensures AllFilled(t.rows, c) {
      var k: nat :| k < |cs| && cs[k] == c;
      NullsExactly(t, c);
    }
  }

  lemma KeyKeeps(t: Table, name: string, keyType: KeyType, columns: seq<string>, timing: Timing)
    requires TableSound(t) && ToldApart(t.rows, columns) && (forall x :: x in columns ==> x in t.columns)
    requires WithKey(t, name, keyType, columns, timing).Some?
    ensures TableSound(WithKey(t, name, keyType, columns, timing).value)
  {
    if keyType == PrimaryKey {
      NoNulls(t, columns);
    }
    var after := WithKey(t, name, keyType, columns, timing).value;
    assert forall n :: IsPrimary(after, n) ==> IsPrimary(t, n) || n == name;
    assert keyType == PrimaryKey ==> forall n :: !IsPrimary(t, n);
    forall n | n in after.constraints ensures ConstraintHolds(after, after.constraints[n]) {
      assert n != name ==> ConstraintHolds(t, t.constraints[n]);
    }
  }

  lemma ColumnsKeep(t: Table, columns: map<string, Column>)
    requires TableSound(t) && columns.Keys == t.columns.Keys
    requires forall c :: c in columns && columns[c].notNull ==> AllFilled(t.rows, c)
    requires forall c :: c in columns && columns[c].identity ==> columns[c].notNull && columns[c].default == ""
    requires forall c :: c in columns && InPrimaryKey(t, c) ==> columns[c].notNull
    ensures TableSound(t.(columns := columns))
  {
    var after := t.(columns := columns);
    assert forall n :: IsPrimary(after, n) ==> IsPrimary(t, n);
    forall n | n in after.constraints ensures ConstraintHolds(after, after.constraints[n]) {
      assert ConstraintHolds(t, t.constraints[n]);
    }
  }

  lemma ChangeKeeps(t: Table, c: string, change: Change)
    requires TableSound(t) && ApplyEdit(t, AlterColumn(c, change)).Some?
    ensures TableSound(ApplyEdit(t, AlterColumn(c, change)).value)
  {
    var column := Changed(t.columns[c], InPrimaryKey(t, c), change).value;
    forall x | x in t.columns && InPrimaryKey(t, x) ensures t.columns[x].notNull {
      var n :| n in t.constraints && t.constraints[n].Key? && t.constraints[n].keyType == PrimaryKey
               && x in t.constraints[n].keyColumns;
      assert ConstraintHolds(t, t.constraints[n]);
    }
    ColumnsKeep(t, t.columns[c := column]);
  }

  lemma SetNotNullKeeps(t: Table, c: string)
    requires TableSound(t) && c in t.columns && !HasNull(t, c)
    ensures TableSound(t.(columns := NotNull(t.columns, [c])))
  {
    NullsExactly(t, c);
    forall x | x in t.columns && InPrimaryKey(t, x) ensures t.columns[x].notNull {
      var n :| n in t.constraints && t.constraints[n].Key? && t.constraints[n].keyType == PrimaryKey
               && x in t.constraints[n].keyColumns;
      assert ConstraintHolds(t, t.constraints[n]);
    }
    ColumnsKeep(t, NotNull(t.columns, [c]));
  }

  lemma ConstraintsKeep(t: Table, n: string, c: Constraint)
    requires TableSound(t) && ConstraintHolds(t, c) && !c.Key?
    ensures TableSound(t.(constraints := t.constraints[n := c]))
  {
    var after := t.(constraints := t.constraints[n := c]);
    assert forall k :: IsPrimary(after, k) ==> IsPrimary(t, k);
    forall k | k in after.constraints ensures ConstraintHolds(after, after.constraints[k]) {
      assert k != n ==> ConstraintHolds(t, t.constraints[k]);
    }
  }

  lemma IndexKeyKeeps(t: Table, n: string, keyType: KeyType)
    requires TableSound(t) && ApplyEdit(t, AddKeyUsingIndex(n, keyType)).Some?
    ensures TableSound(ApplyEdit(t, AddKeyUsingIndex(n, keyType)).value)
  {
    var less := t.(indexes := t.indexes - {n});
    assert forall k :: IsPrimary(less, k) ==> IsPrimary(t, k);
    forall k | k in less.constraints ensures ConstraintHolds(less, less.constraints[k]) {
      assert ConstraintHolds(t, t.constraints[k]);
    }
    KeyKeeps(less, n, keyType, t.indexes[n].columns, NotDeferrable);
  }

  lemma DropKeeps(t: Table, n: string)
    requires TableSound(t)
    ensures TableSound(t.(constraints := t.constraints - {n}))
  {
    var after := t.(constraints := t.constraints - {n});
    assert forall k :: IsPrimary(after, k) ==> IsPrimary(t, k);
    forall k | k in after.constraints ensures ConstraintHolds(after, after.constraints[k]) {
      assert ConstraintHolds(t, t.constraints[k]);
    }
  }

  lemma CreateKeeps(t: Table, n: string, x: Index)
    requires TableSound(t) && ApplyEdit(t, CreateIndex(n, x)).Some?
    ensures TableSound(ApplyEdit(t, CreateIndex(n, x)).value)
  {
    DuplicatesExactly(t, x.columns);
    var after := t.(indexes := t.indexes[n := x]);
    assert forall k :: IsPrimary(after, k) ==> IsPrimary(t, k);
    forall k | k in after.constraints ensures ConstraintHolds(after, after.constraints[k]) {
      assert ConstraintHolds(t, t.constraints[k]);
    }
    forall c | c in x.columns ensures c in t.columns {
      var k: nat :| k < |x.columns| && x.columns[k] == c;
    }
  }

  lemma EditKeeps(t: Table, e: Edit)
    requires TableSound(t) && ApplyEdit(t, e).Some?
    ensures TableSound(ApplyEdit(t, e).value) && ApplyEdit(t, e).value.rows == t.rows
  {
    match e
    case AlterColumn(c, change) => ChangeKeeps(t, c, change);
    case AddNotNullCheck(n, c) => ConstraintsKeep(t, n, NotNullCheck(c, false));
    case ValidateCheck(n) =>
      NullsExactly(t, t.constraints[n].column);
      ConstraintsKeep(t, n, NotNullCheck(t.constraints[n].column, true));
    case DropConstraint(n) => DropKeeps(t, n);
    case SetNotNull(c) => SetNotNullKeeps(t, c);
    case CreateIndex(n, x) => CreateKeeps(t, n, x);
    case AddKeyUsingIndex(n, keyType) => IndexKeyKeeps(t, n, keyType);
    case AddKey(n, keyType, columns, timing) =>
      DuplicatesExactly(t, columns);
      forall c | c in columns ensures c in t.columns {
        var k: nat :| k < |columns| && columns[k] == c;
      }
      KeyKeeps(t, n, keyType, columns, timing);
  }

  /** The foreign keys are those of before, or no longer there. */
  lemma EditAddsNoForeignKey(t: Table, e: Edit, n: string)
    requires ApplyEdit(t, e).Some? && n in ApplyEdit(t, e).value.constraints
    requires ApplyEdit(t, e).value.constraints[n].ForeignKey?
    ensures n in t.constraints && t.constraints[n] == ApplyEdit(t, e).value.constraints[n]
  {
  }

  lemma TableKeeps(db: Database, id: TableID, e: Edit)
    requires Sound(db) && Apply(db, OnTable(id, e)).Some?
    ensures Sound(Apply(db, OnTable(id, e)).value)
  {
    EditKeeps(db[id], e);
    var after := Apply(db, OnTable(id, e)).value;
    forall t, n | t in after && n in after[t].constraints && after[t].constraints[n].ForeignKey?
                  && after[t].constraints[n].valid
      ensures ForeignKeyHolds(after, t, after[t].constraints[n].reference)
    {
      if t == id {
        EditAddsNoForeignKey(db[id], e, n);
      }
      assert ForeignKeyHolds(db, t, db[t].constraints[n].reference);
    }
  }

  lemma PutKeeps(db: Database, id: TableID, name: string, reference: Reference, valid: bool)
    requires Sound(db) && id in db && (valid ==> ForeignKeyHolds(db, id, reference))
    ensures Sound(Put(db, id, name, ForeignKey(reference, valid)))
  {
    ConstraintsKeep(db[id], name, ForeignKey(reference, valid));
    var after := Put(db, id, name, ForeignKey(reference, valid));
    forall t, n | t in after && n in after[t].constraints && after[t].constraints[n].ForeignKey?
                  && after[t].constraints[n].valid
      ensures ForeignKeyHolds(after, t, after[t].constraints[n].reference)
    {
      if t != id || n != name {
        assert ForeignKeyHolds(db, t, db[t].constraints[n].reference);
      }
    }
  }

  lemma StatementKeeps(db: Database, s: Statement)
    requires Sound(db) && Apply(db, s).Some?
    ensures Sound(Apply(db, s).value)
  {
    match s
    case OnTable(id, e) => TableKeeps(db, id, e);
    case AddForeignKey(id, n, reference, valid) =>
      DanglingExactly(db, id, reference);
      PutKeeps(db, id, n, reference, valid);
    case ValidateForeignKey(id, n) =>
      DanglingExactly(db, id, db[id].constraints[n].reference);
      PutKeeps(db, id, n, db[id].constraints[n].reference, true);
  }

  /** Whatever statements go through, in stages or not: a column that ends NOT NULL has no nulls, keys tell rows apart,
      and each row has the parents that valid foreign keys ask for. */
  lemma {:induction false} ExecuteKeeps(db: Database, ss: seq<Statement>)
    requires Sound(db) && Execute(db, ss).Some?
    ensures Sound(Execute(db, ss).value)
    decreases |ss|
  {
    if ss == [] {
    } else {
      StatementKeeps(db, ss[0]);
      ExecuteKeeps(Apply(db, ss[0]).value, ss[1..]);
    }
  }
}
