/** Inputs on which the stages and the direct changes part, and what the stages leave when they fail. */
module PostgresWitnesses {
  import opened Common
  import opened PostgresTables
  import opened PostgresStages
  import opened PostgresColumns
  import opened PostgresRefinement
  import opened PostgresGroups
  import opened PostgresStaged

  // ----- names that are cut -----

  lemma {:induction false} CutIsPrefix(s: string, more: string, limit: nat)
    requires Bytes(s) >= limit
    ensures CutTo(s + more, limit) == CutTo(s, limit)
    decreases |s|
  {
    if s == "" {
      assert s + more == more;
    } else {
      assert (s + more)[1..] == s[1..] + more;
      if Width(s[0]) <= limit {
        CutIsPrefix(s[1..], more, limit - Width(s[0]));
      }
    }
  }

  lemma {:induction false} BytesConcat(a: string, b: string)
    ensures Bytes(a + b) == Bytes(a) + Bytes(b)
    decreases |a|
  {
    if a == "" {
      assert a + b == b;
    } else {
      assert (a + b)[1..] == a[1..] + b;
      BytesConcat(a[1..], b);
    }
  }

  /** A table name of 62 bytes or more leaves nothing of the column in the name of a check. */
  lemma LongNamesCollide(table: TableID, a: string, b: string)
    requires Bytes(table.name) >= 62
    ensures CheckName(table, a) == CheckName(table, b)
  {
    var prefix := table.name + "_";
    BytesConcat(table.name, "_");
    CutIsPrefix(prefix, a + "_not_null_check", 63);
    CutIsPrefix(prefix, b + "_not_null_check", 63);
    assert table.name + "_" + a + "_not_null_check" == prefix + (a + "_not_null_check");
    assert table.name + "_" + b + "_not_null_check" == prefix + (b + "_not_null_check");
  }

  /** Two columns of such a table cannot lose their nulls in stages. */
  lemma LongNamesAreRefused(version: nat, t: Table, a: AlterTable)
    requires version >= 12 && Planned(version, t, a) && Bytes(a.table.name) >= 62 && |Losing(a.alterColumns)| >= 2
    ensures ApplyEdits(t, InStages(version, a)) == None
  {
    var cs := Losing(a.alterColumns);
    LongNamesCollide(a.table, cs[0], cs[1]);
    assert cs[1..][0] == cs[1];
    assert !CheckNamesFree(t, a.table, cs);
    TableInStagesExactly(version, t, a);
  }

  const PLAIN := Column("integer", DEFAULT_COLLATION, "", false, false)

  const NULLABLE := ColumnDef("integer", "", "", false, false, false, "")

  const FILLED := NULLABLE.(isNotNull := true)

  function Repeated(c: char, n: nat): string {
    if n == 0 then "" else [c] + Repeated(c, n - 1)
  }

  lemma {:induction false} BytesRepeated(c: char, n: nat)
    ensures Bytes(Repeated(c, n)) == n * Width(c)
  {
    if n == 0 {
    } else {
      BytesRepeated(c, n - 1);
      assert n * Width(c) == Width(c) + (n - 1) * Width(c);
    }
  }

  const TWO_COLUMNS := Table(map["a" := PLAIN, "b" := PLAIN], map[], map[], [])

  const TWO_PAIRS := [ColumnPair("a", NULLABLE, FILLED), ColumnPair("b", NULLABLE, FILLED)]

  lemma OnePair(checks: bool, table: TableID, p: ColumnPair)
    ensures ColumnEdits(checks, table, [p]) == PairEdits(checks, table, p) && BaseEdits([p]) == PairBase(p)
    ensures Losing([p]) == (if LosesNulls(p) then [p.name] else [])
    ensures (NoneGains([p]) <==> !(LosesNulls(p) && GainsIdentity(p)))
  {
    assert [p][1..] == [];
  }

  lemma TwoPairs(checks: bool, table: TableID)
    ensures Losing(TWO_PAIRS) == ["a", "b"] && NoneGains(TWO_PAIRS) && BaseEdits(TWO_PAIRS) == []
  {
    var p, q := ColumnPair("a", NULLABLE, FILLED), ColumnPair("b", NULLABLE, FILLED);
    assert TWO_PAIRS[0] == p && TWO_PAIRS[1..] == [q];
    OnePair(checks, table, q);
    NoOtherEdits(p);
    NoOtherEdits(q);
  }

  lemma NoOtherEdits(p: ColumnPair)
    requires p.src == NULLABLE && p.dest == FILLED
    ensures PairBase(p) == []
  {
    assert TypeChange(p) == [] && DefaultChange(p) == [] && IdentityChange(p) == [];
    assert Alters(p.name, TypeChange(p) + DefaultChange(p)) == [] && Alters(p.name, IdentityChange(p)) == [];
  }

  lemma Planless(id: TableID, ps: seq<ColumnPair>, cs: seq<string>, ks: seq<NewKey>)
    ensures var a := AlterTable(id, ps, cs, [], ks);
            && Directly(a) == ColumnEdits(false, id, ps) + AddKeys(ks)
            && InStages(12, a) == ColumnEdits(true, id, ps) + ValidateChecks(id, cs) + KeysThroughIndexes(ks)
  {
    assert ColumnEdits(false, id, ps) + [] == ColumnEdits(false, id, ps);
    var checked := ColumnEdits(true, id, ps) + ValidateChecks(id, cs);
    assert checked + [] == checked;
  }

  lemma TwoDirect(table: TableID)
    ensures ApplyEdits(TWO_COLUMNS, ColumnEdits(false, table, TWO_PAIRS)).Some?
  {
    TwoPairs(false, table);
    NullsAreLost(TWO_COLUMNS, table, TWO_PAIRS);
    assert !AnyNull(TWO_COLUMNS, ["a", "b"]);
  }

  /** The columns a and b of a table with a long name lose their nulls directly, but not in stages. */
  lemma LongTableRefused(table: TableID)
    requires Bytes(table.name) >= 62
    ensures var a := AlterTable(table, TWO_PAIRS, ["a", "b"], [], []);
            ApplyEdits(TWO_COLUMNS, InStages(12, a)) == None && ApplyEdits(TWO_COLUMNS, Directly(a)).Some?
  {
    TwoPairs(true, table);
    ValidatedLose(12, TWO_PAIRS);
    LongNamesAreRefused(12, TWO_COLUMNS, AlterTable(table, TWO_PAIRS, ["a", "b"], [], []));
    Planless(table, TWO_PAIRS, ["a", "b"], []);
    TwoDirect(table);
    assert ColumnEdits(false, table, TWO_PAIRS) + [] == ColumnEdits(false, table, TWO_PAIRS);
  }

  /** Such as a table of 31 letters that take two bytes each. */
  lemma LongTableWitness(schema: string)
    ensures var name := Repeated('\U{e9}', 31);
            var a := AlterTable(TableID(schema, name), TWO_PAIRS, ["a", "b"], [], []);
            && Bytes(name) == 62 && ApplyEdits(TWO_COLUMNS, InStages(12, a)) == None
            && ApplyEdits(TWO_COLUMNS, Directly(a)).Some?
  {
    BytesRepeated('\U{e9}', 31);
    LongTableRefused(TableID(schema, Repeated('\U{e9}', 31)));
  }

  // ----- deferrable keys -----

  lemma OneKey(k: NewKey)
    ensures AddKeys([k]) == [AddKey(k.name, k.keyType, k.columns, k.timing)]
    ensures KeysThroughIndexes([k])
        == [CreateIndex(k.name, Index(true, k.columns)), AddKeyUsingIndex(k.name, k.keyType)]
  {
    assert [k][1..] == [];
  }

  lemma ApplyOne(t: Table, e: Edit)
    ensures ApplyEdits(t, [e]) == ApplyEdit(t, e)
  {
    assert [e][1..] == [];
  }

  /** A deferrable key comes out as one that is not. */
  lemma DeferrableKeyWitness(id: TableID, timing: Timing)
    requires timing != NotDeferrable
    ensures var a := AlterTable(id, [], [], [], [NewKey("a_key", Unique, ["a"], timing)]);
            var r, s := ApplyEdits(TWO_COLUMNS, InStages(12, a)), ApplyEdits(TWO_COLUMNS, Directly(a));
            && r.Some? && s.Some? && s.value.constraints == map["a_key" := Key(Unique, ["a"], timing)]
            && r.value.constraints == map["a_key" := Key(Unique, ["a"], NotDeferrable)]
  {
    var k := NewKey("a_key", Unique, ["a"], timing);
    Planless(id, [], [], [k]);
    OneKey(k);
    assert [] + AddKeys([k]) == AddKeys([k]) && [] + [] + KeysThroughIndexes([k]) == KeysThroughIndexes([k]);
    KeyThroughIndex(TWO_COLUMNS, k);
    ApplyOne(TWO_COLUMNS, AddKey(k.name, k.keyType, k.columns, timing));
  }

  // ----- identity columns -----

  const IDENTITY_PAIR := ColumnPair("a", NULLABLE, FILLED.(identity := "GENERATED ALWAYS AS IDENTITY"))

  lemma IdentityEdits(id: TableID)
    ensures PairEdits(false, id, IDENTITY_PAIR) == [SetNotNull("a"), AlterColumn("a", AddIdentity)]
  {
    var p := IDENTITY_PAIR;
    assert TypeChange(p) == [] && DefaultChange(p) == [] && IdentityChange(p) == [AddIdentity];
    assert Alters("a", TypeChange(p) + DefaultChange(p)) == []
        && Alters("a", [AddIdentity]) == [AlterColumn("a", AddIdentity)];
    assert NullEdits(false, id, p) == [SetNotNull("a")];
  }

  /** A column that loses its nulls and becomes an identity column does so directly, but not in stages. */
  lemma IdentityWitness(id: TableID)
    ensures var a := AlterTable(id, [IDENTITY_PAIR], ["a"], [], []);
            ApplyEdits(TWO_COLUMNS, InStages(12, a)) == None && ApplyEdits(TWO_COLUMNS, Directly(a)).Some?
  {
    var ps := [IDENTITY_PAIR];
    OnePair(false, id, IDENTITY_PAIR);
    ValidatedLose(12, ps);
    TableInStagesExactly(12, TWO_COLUMNS, AlterTable(id, ps, ["a"], [], []));
    Planless(id, ps, ["a"], []);
    IdentityEdits(id);
    assert PairEdits(false, id, IDENTITY_PAIR) + [] == PairEdits(false, id, IDENTITY_PAIR);
    ApplyTwo(TWO_COLUMNS, SetNotNull("a"), AlterColumn("a", AddIdentity));
  }

  // ----- foreign keys to and fro -----

  const A := TableID("", "a")

  const B := TableID("", "b")

  const TO := NewForeignKey(A, "a_b_fkey", Reference(["b"], B, ["a"], NotDeferrable))

  const FRO := NewForeignKey(B, "b_a_fkey", Reference(["b"], A, ["a"], NotDeferrable))

  const KEYED := TWO_COLUMNS.(constraints := map["key" := Key(PrimaryKey, ["a"], NotDeferrable)])

  /** Two tables that refer to each other: one by one the foreign keys can be added, but their group comes to
      something else. */
  lemma ToAndFroWitness()
    ensures var db := map[A := KEYED, B := KEYED];
            Execute(db, GroupDirectly([TO, FRO])).Some? && Grouped([TO, FRO]) == [[TO, FRO]]
            && Execute(db, GroupInStages([TO, FRO])) != Execute(db, GroupDirectly([TO, FRO]))
  {
    var db: Database := map[A := KEYED, B := KEYED];
    assert IsKeyOn(KEYED.constraints["key"], ["a"]);
    assert Referable(db, A, TO.reference) && Referable(db, B, FRO.reference) && !Dangling(db, A, TO.reference);
    var mid := Put(db, A, TO.name, ForeignKey(TO.reference, true));
    StillReferable(db, A, TO.name, TO.reference, true, FRO.reference);
    assert IsKeyOn(mid[A].constraints["key"], ["a"]);
    assert Referable(mid, B, FRO.reference) && !Dangling(mid, B, FRO.reference);
    TwoDirectly(db, TO, FRO, mid);
    ToAndFroIsNotOneWay(TO, FRO);
    assert [TO, FRO][0] == TO && [TO, FRO][1] == FRO;
    GroupAgreesExactly(db, [TO, FRO]);
  }

  lemma TwoDirectly(db: Database, f: NewForeignKey, g: NewForeignKey, mid: Database)
    requires Apply(db, AddForeignKey(f.table, f.name, f.reference, true)) == Some(mid)
    ensures Execute(db, GroupDirectly([f, g])) == Apply(mid, AddForeignKey(g.table, g.name, g.reference, true))
  {
    var first, second := AddForeignKey(f.table, f.name, f.reference, true),
        AddForeignKey(g.table, g.name, g.reference, true);
    assert [f, g][1..] == [g] && [g][1..] == [];
    assert GroupDirectly([g]) == [second];
    assert GroupDirectly([f, g]) == [first, second];
    assert [first, second][1..] == [second] && [second][1..] == [];
    match Apply(mid, second)
    case None =>
    case Some(after) => assert Execute(after, []) == Some(after);
  }

  // ----- what is left after a failure -----

  /** The files of a table, each of which is a transaction, or one statement outside. */
  function Files(version: nat, a: AlterTable): seq<seq<Edit>> {
    [ColumnEdits(version >= 12, a.table, a.alterColumns), ValidateChecks(a.table, a.validateNotNull)]
    + Singles(CreateIndexes(a.createIndexes) + KeysThroughIndexes(a.addKeys))
  }

  function Singles(es: seq<Edit>): seq<seq<Edit>> {
    seq(|es|, i requires 0 <= i < |es| => [es[i]])
  }

  /** The table after the files, up to the first that fails. */
  function ApplyFiles(t: Table, files: seq<seq<Edit>>): (Table, bool)
    decreases |files|
  {
    if files == [] then (t, true)
    else match ApplyEdits(t, files[0])
      case None => (t, false)
      case Some(after) => ApplyFiles(after, files[1..])
  }

  /** The files are the stages: they all go through exactly if the stages do, and come to the same. */
  lemma {:induction false} FilesAreStages(t: Table, files: seq<seq<Edit>>)
    ensures ApplyFiles(t, files).1 <==> ApplyEdits(t, Joined(files)).Some?
    ensures ApplyFiles(t, files).1 ==> ApplyEdits(t, Joined(files)) == Some(ApplyFiles(t, files).0)
    decreases |files|
  {
    if files == [] {
    } else {
      EditsConcat(t, files[0], Joined(files[1..]));
      match ApplyEdits(t, files[0])
      case None =>
      case Some(after) => FilesAreStages(after, files[1..]);
    }
  }

  function Joined(files: seq<seq<Edit>>): seq<Edit>
    decreases |files|
  {
    if files == [] then [] else files[0] + Joined(files[1..])
  }

  lemma {:induction false} SinglesJoined(es: seq<Edit>)
    ensures Joined(Singles(es)) == es
    decreases |es|
  {
    if es == [] {
    } else {
      assert Singles(es)[1..] == Singles(es[1..]);
      SinglesJoined(es[1..]);
    }
  }

  lemma JoinedTwo(x: seq<Edit>, y: seq<Edit>, rest: seq<seq<Edit>>)
    ensures Joined([x, y] + rest) == x + y + Joined(rest)
  {
    var files := [x, y] + rest;
    assert files[1..] == [y] + rest && files[1..][1..] == rest;
    assert x + (y + Joined(rest)) == x + y + Joined(rest);
  }

  lemma StagesAreJoined(version: nat, a: AlterTable)
    ensures Joined(Files(version, a)) == InStages(version, a)
  {
    var columns, checks := ColumnEdits(version >= 12, a.table, a.alterColumns),
        ValidateChecks(a.table, a.validateNotNull);
    var indexes, keys := CreateIndexes(a.createIndexes), KeysThroughIndexes(a.addKeys);
    SinglesJoined(indexes + keys);
    JoinedTwo(columns, checks, Singles(indexes + keys));
    assert columns + checks + (indexes + keys) == columns + checks + indexes + keys;
  }

  /** So the files all go through exactly if the stages of the table do. */
  lemma FilesRunExactly(version: nat, t: Table, a: AlterTable)
    ensures ApplyFiles(t, Files(version, a)).1 <==> ApplyEdits(t, InStages(version, a)).Some?
    ensures ApplyFiles(t, Files(version, a)).1 ==>
              ApplyEdits(t, InStages(version, a)) == Some(ApplyFiles(t, Files(version, a)).0)
  {
    StagesAreJoined(version, a);
    FilesAreStages(t, Files(version, a));
  }

  lemma StopsAtSecond(t: Table, files: seq<seq<Edit>>, u: Table)
    requires |files| >= 2 && ApplyEdits(t, files[0]) == Some(u) && ApplyEdits(u, files[1]) == None
    ensures ApplyFiles(t, files) == (u, false)
  {
    assert files[1..][0] == files[1];
  }

  lemma FirstFiles(version: nat, a: AlterTable)
    ensures var files := Files(version, a);
            && |files| >= 2 && files[0] == ColumnEdits(version >= 12, a.table, a.alterColumns)
            && files[1] == ValidateChecks(a.table, a.validateNotNull)
  {
  }

  /** If a column has nulls, the validation fails, and the checks stay, not valid: new rows are checked from then on. */
  lemma FailedValidationLeavesChecks(version: nat, t: Table, a: AlterTable)
    requires version >= 12 && Planned(version, t, a) && ColumnsFit(version, t, a.table, a.alterColumns)
    requires ApplyEdits(t, BaseEdits(a.alterColumns)).Some? && HasColumns(t, Losing(a.alterColumns))
    requires AnyNull(t, Losing(a.alterColumns))
    ensures var u := ApplyEdits(t, BaseEdits(a.alterColumns)).value;
            ApplyFiles(t, Files(version, a)) == (WithChecks(u, a.table, Losing(a.alterColumns)), false)
  {
    var u := ApplyEdits(t, BaseEdits(a.alterColumns)).value;
    ChecksAreAdded(t, a.table, a.alterColumns);
    ValidatedLose(version, a.alterColumns);
    ValidatedAfter(t, u, a.table, a.alterColumns);
    FirstFiles(version, a);
    StopsAtSecond(t, Files(version, a), WithChecks(u, a.table, Losing(a.alterColumns)));
  }

  /** If a key cannot take over its index, the index stays. */
  lemma FailedKeyLeavesIndex(t: Table, k: NewKey)
    requires ApplyEdit(t, CreateIndex(k.name, Index(true, k.columns))).Some?
    requires ApplyEdit(t, AddKey(k.name, k.keyType, k.columns, NotDeferrable)) == None
    ensures ApplyFiles(t, Singles(KeysThroughIndexes([k])))
        == (t.(indexes := t.indexes[k.name := Index(true, k.columns)]), false)
  {
    var create, add := CreateIndex(k.name, Index(true, k.columns)), AddKeyUsingIndex(k.name, k.keyType);
    OneKey(k);
    KeyThroughIndex(t, k);
    ApplyTwo(t, create, add);
    ApplyOne(t, create);
    ApplyOne(ApplyEdit(t, create).value, add);
    StopsAtSecond(t, Singles([create, add]), ApplyEdit(t, create).value);
  }
}
