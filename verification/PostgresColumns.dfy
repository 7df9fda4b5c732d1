/** Columns that lose their nulls in stages: a check that is not valid is added, made valid later, and dropped
    once the column is NOT NULL. */
module PostgresColumns {
  import opened Common
  import opened PostgresTables
  import opened PostgresStages

  function Losing(ps: seq<ColumnPair>): seq<string>
    decreases |ps|
  {
    if ps == [] then [] else (if LosesNulls(ps[0]) then [ps[0].name] else []) + Losing(ps[1..])
  }

  /** No column gains an identity as it loses its nulls. */
  predicate NoneGains(ps: seq<ColumnPair>)
    decreases |ps|
  {
    ps == [] || (!(LosesNulls(ps[0]) && GainsIdentity(ps[0])) && NoneGains(ps[1..]))
  }

  ghost predicate DistinctNames(ps: seq<ColumnPair>) {
    forall i, k :: 0 <= i < k < |ps| ==> ps[i].name != ps[k].name
  }

  /** The table is as the catalog says: columns that are to lose their nulls may have some. */
  ghost predicate FitsSource(t: Table, ps: seq<ColumnPair>) {
    forall i :: 0 <= i < |ps| && LosesNulls(ps[i]) && ps[i].name in t.columns ==> !t.columns[ps[i].name].notNull
  }

  // ----- the two filters -----

  lemma {:induction false} ValidatedLose(version: nat, ps: seq<ColumnPair>)
    ensures Validated(version, ps) == if version >= 12 then Losing(ps) else []
    decreases |ps|
  {
    if ps == [] {
    } else {
      ValidatedLose(version, ps[1..]);
    }
  }

  /** The columns for which some edits add a check. */
  function ChecksIn(es: seq<Edit>): seq<string>
    decreases |es|
  {
    if es == [] then [] else (if es[0].AddNotNullCheck? then [es[0].column] else []) + ChecksIn(es[1..])
  }

  lemma {:induction false} ChecksInConcat(a: seq<Edit>, b: seq<Edit>)
    ensures ChecksIn(a + b) == ChecksIn(a) + ChecksIn(b)
    decreases |a|
  {
    if a == [] {
      assert a + b == b;
    } else {
      assert (a + b)[1..] == a[1..] + b;
      ChecksInConcat(a[1..], b);
    }
  }

  lemma {:induction false} NoChecksIn(c: string, changes: seq<Change>)
    ensures ChecksIn(Alters(c, changes)) == []
    decreases |changes|
  {
    if changes == [] {
    } else {
      assert Alters(c, changes)[1..] == Alters(c, changes[1..]);
      NoChecksIn(c, changes[1..]);
    }
  }

  /** The writer adds a check for exactly the columns that the planner lists for validation; before version 12 there
      are none. */
  lemma {:induction false} AddedAreValidated(version: nat, table: TableID, ps: seq<ColumnPair>)
    ensures ChecksIn(ColumnEdits(version >= 12, table, ps)) == Validated(version, ps)
    decreases |ps|
  {
    if ps == [] {
    } else {
      var checks := version >= 12;
      AddedAreValidated(version, table, ps[1..]);
      ChecksOfPair(checks, table, ps[0]);
      ChecksInConcat(PairEdits(checks, table, ps[0]), ColumnEdits(checks, table, ps[1..]));
    }
  }

  lemma ChecksOfPair(checks: bool, table: TableID, p: ColumnPair)
    ensures ChecksIn(PairEdits(checks, table, p)) == if LosesNulls(p) && checks then [p.name] else []
  {
    var before, after := Alters(p.name, TypeChange(p) + DefaultChange(p)), Alters(p.name, IdentityChange(p));
    var nulls := NullEdits(checks, table, p);
    NoChecksIn(p.name, TypeChange(p) + DefaultChange(p));
    NoChecksIn(p.name, IdentityChange(p));
    ChecksInConcat(nulls, after);
    ChecksInConcat(before, nulls + after);
    assert nulls != [] ==> nulls[1..] == [];
  }

  // ----- edits of columns -----

  predicate AllAlter(es: seq<Edit>) {
    forall i :: 0 <= i < |es| ==> es[i].AlterColumn?
  }

  /** The state after an edit, in a setting that does not matter to it. */
  function With(r: Option<Table>, f: Table -> Table): Option<Table> {
    match r
    case None => None
    case Some(t) => Some(f(t))
  }

  function PlusChecks(t: Table, m: map<string, Constraint>): Table {
    t.(constraints := t.constraints + m)
  }

  ghost predicate OnlyChecks(t: Table, m: map<string, Constraint>) {
    forall n :: n in m ==> n !in t.constraints && m[n].NotNullCheck?
  }

  lemma SamePrimaryKeys(t: Table, m: map<string, Constraint>, c: string)
    requires OnlyChecks(t, m)
    ensures InPrimaryKey(PlusChecks(t, m), c) == InPrimaryKey(t, c)
  {
    var u := PlusChecks(t, m);
    if InPrimaryKey(t, c) {
      var n :| n in t.constraints && t.constraints[n].Key? && t.constraints[n].keyType == PrimaryKey
               && c in t.constraints[n].keyColumns;
      assert n in u.constraints && u.constraints[n] == t.constraints[n];
    }
    if InPrimaryKey(u, c) {
      var n :| n in u.constraints && u.constraints[n].Key? && u.constraints[n].keyType == PrimaryKey
               && c in u.constraints[n].keyColumns;
      assert n in t.constraints && u.constraints[n] == t.constraints[n];
    }
  }

  /** Edits of columns leave all else as it is, and checks do not matter to them. */
  lemma {:induction false} AltersUnderChecks(t: Table, m: map<string, Constraint>, es: seq<Edit>)
    requires AllAlter(es) && OnlyChecks(t, m)
    ensures ApplyEdits(PlusChecks(t, m), es)
         == match ApplyEdits(t, es) case None => None case Some(u) => Some(PlusChecks(u, m))
    ensures ApplyEdits(t, es).Some? ==>
              var u := ApplyEdits(t, es).value;
              u.rows == t.rows && u.constraints == t.constraints && u.indexes == t.indexes
                  && u.columns.Keys == t.columns.Keys
    decreases |es|
  {
    if es == [] {
    } else {
      SamePrimaryKeys(t, m, es[0].column);
      match ApplyEdit(t, es[0])
      case None =>
      case Some(u) =>
        assert ApplyEdit(PlusChecks(t, m), es[0]) == Some(PlusChecks(u, m));
        AltersUnderChecks(u, m, es[1..]);
    }
  }

  lemma AltersKeep(t: Table, es: seq<Edit>)
    requires AllAlter(es) && ApplyEdits(t, es).Some?
    ensures var u := ApplyEdits(t, es).value;
            u.rows == t.rows && u.constraints == t.constraints && u.indexes == t.indexes
                && u.columns.Keys == t.columns.Keys
  {
    AltersUnderChecks(t, map[], es);
  }

  function WithoutNulls(t: Table, cs: seq<string>): Table {
    t.(columns := NotNull(t.columns, cs))
  }

  /** The edits do not depend on whether the columns are NOT NULL. */
  predicate Indifferent(es: seq<Edit>, cs: seq<string>) {
    forall i :: 0 <= i < |es| ==> es[i].AlterColumn? && (es[i].column !in cs || es[i].change == DropIdentity)
  }

  lemma {:induction false} AltersUnderNotNull(t: Table, cs: seq<string>, es: seq<Edit>)
    requires Indifferent(es, cs)
    ensures ApplyEdits(WithoutNulls(t, cs), es)
         == match ApplyEdits(t, es) case None => None case Some(u) => Some(WithoutNulls(u, cs))
    decreases |es|
  {
    if es == [] {
    } else {
      var e := es[0];
      AlterUnderNotNull(t, cs, e);
      match ApplyEdit(t, e)
      case None =>
      case Some(u) => AltersUnderNotNull(u, cs, es[1..]);
    }
  }

  lemma AlterUnderNotNull(t: Table, cs: seq<string>, e: Edit)
    requires Indifferent([e], cs)
    ensures ApplyEdit(WithoutNulls(t, cs), e)
         == match ApplyEdit(t, e) case None => None case Some(u) => Some(WithoutNulls(u, cs))
  {
    assert [e][0] == e;
    var c := e.column;
    match ApplyEdit(t, e)
    case None =>
    case Some(u) => assert WithoutNulls(t, cs).columns[c := WithoutNulls(u, cs).columns[c]]
        == WithoutNulls(u, cs).columns;
  }

  // ----- checks -----

  function ChecksOf(table: TableID, cs: seq<string>): map<string, Constraint>
    decreases |cs|
  {
    if cs == [] then map[] else ChecksOf(table, cs[1..])[CheckName(table, cs[0]) := NotNullCheck(cs[0], false)]
  }

  /** The names of the checks, cut as they are, are not those of constraints, or of each other. */
  predicate CheckNamesFree(t: Table, table: TableID, cs: seq<string>)
    decreases |cs|
  {
    cs == [] || (
      && CheckName(table, cs[0]) !in t.constraints && CheckName(table, cs[0]) !in ChecksOf(table, cs[1..])
      && CheckNamesFree(t, table, cs[1..]))
  }

  lemma {:induction false} FreeAfter(t: Table, table: TableID, n: string, c: Constraint, cs: seq<string>)
    requires n !in t.constraints
    ensures CheckNamesFree(t.(constraints := t.constraints[n := c]), table, cs)
       <==> CheckNamesFree(t, table, cs) && n !in ChecksOf(table, cs)
    decreases |cs|
  {
    if cs == [] {
    } else {
      FreeAfter(t, table, n, c, cs[1..]);
    }
  }

  lemma {:induction false} FreeOfConstraints(t: Table, u: Table, table: TableID, cs: seq<string>)
    requires t.constraints == u.constraints
    ensures CheckNamesFree(t, table, cs) == CheckNamesFree(u, table, cs)
    decreases |cs|
  {
    if cs == [] {
    } else {
      FreeOfConstraints(t, u, table, cs[1..]);
    }
  }

  lemma {:induction false} FreeAreNew(t: Table, table: TableID, cs: seq<string>)
    requires CheckNamesFree(t, table, cs)
    ensures OnlyChecks(t, ChecksOf(table, cs))
    decreases |cs|
  {
    if cs == [] {
    } else {
      FreeAreNew(t, table, cs[1..]);
    }
  }

  function WithChecks(t: Table, table: TableID, cs: seq<string>): Table {
    PlusChecks(t, ChecksOf(table, cs))
  }

  lemma WithoutChecks(t: Table, table: TableID)
    ensures WithChecks(t, table, []) == t
  {
    assert t.constraints + map[] == t.constraints;
  }

  lemma FirstCheck(t: Table, table: TableID, cs: seq<string>)
    requires cs != [] && CheckNamesFree(t, table, cs)
    ensures var n := CheckName(table, cs[0]);
            && (t.constraints + ChecksOf(table, cs)) - {n} == t.constraints + ChecksOf(table, cs[1..])
            && WithChecks(t.(constraints := t.constraints[n := NotNullCheck(cs[0], false)]), table, cs[1..])
               == WithChecks(t, table, cs)
  {
    var n := CheckName(table, cs[0]);
    assert (t.constraints + ChecksOf(table, cs)) - {n} == t.constraints + ChecksOf(table, cs[1..]);
    assert t.constraints[n := NotNullCheck(cs[0], false)] + ChecksOf(table, cs[1..])
        == t.constraints + ChecksOf(table, cs);
  }

  /** All columns of a list are there exactly if the first one is, and the others are. */
  lemma FirstColumn(t: Table, cs: seq<string>)
    requires cs != []
    ensures HasColumns(t, cs) <==> cs[0] in t.columns && HasColumns(t, cs[1..])
    ensures AnyNull(t, cs) <==> HasNull(t, cs[0]) || AnyNull(t, cs[1..])
  {
    if HasColumns(t, cs[1..]) {
      assert forall k :: 0 < k < |cs| ==> cs[k] == cs[1..][k - 1];
    }
    if k :| 0 <= k < |cs| && HasNull(t, cs[k]) {
      assert k > 0 ==> cs[1..][k - 1] == cs[k];
    }
    if k :| 0 <= k < |cs[1..]| && HasNull(t, cs[1..][k]) {
      assert cs[k + 1] == cs[1..][k];
    }
  }

  // ----- validation -----

  /** Checks that are added, made valid and dropped again leave the columns without nulls, if they have none. */
  lemma {:induction false} ChecksAreValidated(t: Table, table: TableID, cs: seq<string>)
    requires CheckNamesFree(t, table, cs) && HasColumns(t, cs)
    ensures ApplyEdits(WithChecks(t, table, cs), ValidateChecks(table, cs))
         == if AnyNull(t, cs) then None else Some(WithoutNulls(t, cs))
    decreases |cs|
  {
    if cs == [] {
      WithoutChecks(t, table);
      assert NotNull(t.columns, []) == t.columns;
    } else {
      var c, n, rest := cs[0], CheckName(table, cs[0]), cs[1..];
      var after := WithoutNulls(t, [c]);
      FirstColumn(t, cs);
      FirstValidated(t, table, cs);
      EditsConcat(WithChecks(t, table, cs), [ValidateCheck(n), SetNotNull(c), DropConstraint(n)],
                  ValidateChecks(table, rest));
      if !HasNull(t, c) {
        FreeOfConstraints(t, after, table, rest);
        ChecksAreValidated(after, table, rest);
        assert NotNull(NotNull(t.columns, [c]), rest) == NotNull(t.columns, cs);
        assert AnyNull(after, rest) == AnyNull(t, rest);
      }
    }
  }

  lemma FirstValidated(t: Table, table: TableID, cs: seq<string>)
    requires cs != [] && CheckNamesFree(t, table, cs) && cs[0] in t.columns
    ensures var c, n := cs[0], CheckName(table, cs[0]);
            ApplyEdits(WithChecks(t, table, cs), [ValidateCheck(n), SetNotNull(c), DropConstraint(n)])
            == if HasNull(t, c) then None else Some(WithChecks(WithoutNulls(t, [c]), table, cs[1..]))
  {
    var c, n, before := cs[0], CheckName(table, cs[0]), WithChecks(t, table, cs);
    ApplyThree(before, ValidateCheck(n), SetNotNull(c), DropConstraint(n));
    FirstCheck(t, table, cs);
    assert before.constraints[n] == NotNullCheck(c, false) && HasNull(before, c) == HasNull(t, c);
    if !HasNull(t, c) {
      var valid := before.(constraints := before.constraints[n := NotNullCheck(c, true)]);
      ApplyTwo(valid, SetNotNull(c), DropConstraint(n));
      assert HasNull(valid, c) == HasNull(t, c) && valid.columns == t.columns;
      assert valid.constraints - {n} == before.constraints - {n};
    }
  }

  // ----- a run through the columns -----

  /** The edits of a pair, but for SET NOT NULL or the check in its place. */
  function PairBase(p: ColumnPair): (es: seq<Edit>)
    ensures AllAlter(es) && forall i :: 0 <= i < |es| ==> es[i].column == p.name
  {
    if LosesNulls(p)
    then Alters(p.name, TypeChange(p) + DefaultChange(p)) + Alters(p.name, IdentityChange(p))
    else PairEdits(false, TableID("", ""), p)
  }

  function BaseEdits(ps: seq<ColumnPair>): (es: seq<Edit>)
    ensures AllAlter(es)
    decreases |ps|
  {
    if ps == [] then [] else PairBase(ps[0]) + BaseEdits(ps[1..])
  }

  /** The checks are added along the way, exactly if their names are free. */
  lemma {:induction false} ChecksAreAdded(t: Table, table: TableID, ps: seq<ColumnPair>)
    ensures ApplyEdits(t, ColumnEdits(true, table, ps))
         == match ApplyEdits(t, BaseEdits(ps))
            case None => None
            case Some(u) =>
              if CheckNamesFree(t, table, Losing(ps)) && HasColumns(t, Losing(ps))
              then Some(WithChecks(u, table, Losing(ps)))
              else None
    decreases |ps|
  {
    if ps == [] {
      WithoutChecks(t, table);
    } else {
      var p, rest := ps[0], ps[1..];
      EditsConcat(t, PairEdits(true, table, p), ColumnEdits(true, table, rest));
      EditsConcat(t, PairBase(p), BaseEdits(rest));
      if LosesNulls(p) {
        PairIsChecked(t, table, p);
        match ApplyEdits(t, PairBase(p))
        case None =>
        case Some(u) => OneMoreCheck(t, u, table, ps);
      } else {
        match ApplyEdits(t, PairBase(p))
        case None =>
        case Some(u) => NoMoreCheck(t, u, table, ps);
      }
    }
  }

  lemma NoMoreCheck(t: Table, u: Table, table: TableID, ps: seq<ColumnPair>)
    requires ps != [] && !LosesNulls(ps[0]) && ApplyEdits(t, PairBase(ps[0])) == Some(u)
    ensures var rest := ps[1..];
            ApplyEdits(u, ColumnEdits(true, table, rest))
            == match ApplyEdits(u, BaseEdits(rest))
               case None => None
               case Some(v) =>
                 if CheckNamesFree(t, table, Losing(ps)) && HasColumns(t, Losing(ps))
                 then Some(WithChecks(v, table, Losing(ps)))
                 else None
    decreases |ps|, 0
  {
    var lost := Losing(ps[1..]);
    assert Losing(ps) == lost;
    AltersKeep(t, PairBase(ps[0]));
    ChecksAreAdded(u, table, ps[1..]);
    FreeOfConstraints(t, u, table, lost);
    assert HasColumns(t, lost) == HasColumns(u, lost);
  }

  lemma PairIsChecked(t: Table, table: TableID, p: ColumnPair)
    requires LosesNulls(p)
    ensures var n := CheckName(table, p.name);
            ApplyEdits(t, PairEdits(true, table, p))
            == match ApplyEdits(t, PairBase(p))
               case None => None
               case Some(u) => if n in t.constraints || p.name !in t.columns then None
                   else Some(PlusCheck(u, n, p.name))
  {
    var before, after := Alters(p.name, TypeChange(p) + DefaultChange(p)), Alters(p.name, IdentityChange(p));
    CheckBetween(t, before, CheckName(table, p.name), p.name, after);
  }

  function PlusCheck(t: Table, n: string, c: string): Table {
    t.(constraints := t.constraints[n := NotNullCheck(c, false)])
  }

  lemma PlusCheckIsPlus(t: Table, n: string, c: string)
    ensures PlusCheck(t, n, c) == PlusChecks(t, map[n := NotNullCheck(c, false)])
  {
    assert t.constraints[n := NotNullCheck(c, false)] == t.constraints + map[n := NotNullCheck(c, false)];
  }

  /** A check that is added between edits of columns. */
  lemma CheckBetween(t: Table, before: seq<Edit>, n: string, c: string, after: seq<Edit>)
    requires AllAlter(before) && AllAlter(after)
    ensures ApplyEdits(t, before + ([AddNotNullCheck(n, c)] + after))
         == match ApplyEdits(t, before + after)
            case None => None
            case Some(u) => if n in t.constraints || c !in t.columns then None else Some(PlusCheck(u, n, c))
  {
    EditsConcat(t, before, [AddNotNullCheck(n, c)] + after);
    EditsConcat(t, before, after);
    match ApplyEdits(t, before)
    case None =>
    case Some(u) =>
      AltersKeep(t, before);
      CheckFirst(u, n, c, after);
  }

  lemma CheckFirst(t: Table, n: string, c: string, after: seq<Edit>)
    requires AllAlter(after)
    ensures ApplyEdits(t, [AddNotNullCheck(n, c)] + after)
         == match ApplyEdits(t, after)
            case None => None
            case Some(u) => if n in t.constraints || c !in t.columns then None else Some(PlusCheck(u, n, c))
  {
    var check := AddNotNullCheck(n, c);
    assert ([check] + after)[0] == check && ([check] + after)[1..] == after;
    if n !in t.constraints && c in t.columns {
      PlusCheckIsPlus(t, n, c);
      AltersUnderChecks(t, map[n := NotNullCheck(c, false)], after);
      match ApplyEdits(t, after)
      case None =>
      case Some(u) => PlusCheckIsPlus(u, n, c);
    }
  }

  lemma OneMoreCheck(t: Table, u: Table, table: TableID, ps: seq<ColumnPair>)
    requires ps != [] && LosesNulls(ps[0]) && ApplyEdits(t, PairBase(ps[0])) == Some(u)
    ensures var p, rest, n := ps[0], ps[1..], CheckName(table, ps[0].name);
            (if n in t.constraints || p.name !in t.columns then None
             else ApplyEdits(PlusCheck(u, n, p.name), ColumnEdits(true, table, rest)))
            == match ApplyEdits(u, BaseEdits(rest))
               case None => None
               case Some(v) =>
                 if CheckNamesFree(t, table, Losing(ps)) && HasColumns(t, Losing(ps))
                 then Some(WithChecks(v, table, Losing(ps)))
                 else None
    decreases |ps|, 0
  {
    var p, rest, n := ps[0], ps[1..], CheckName(table, ps[0].name);
    var m := map[n := NotNullCheck(p.name, false)];
    AltersKeep(t, PairBase(p));
    assert Losing(ps)[1..] == Losing(rest);
    FirstColumn(t, Losing(ps));
    if n !in t.constraints && p.name in t.columns {
      PlusCheckIsPlus(u, n, p.name);
      ChecksAreAdded(PlusCheck(u, n, p.name), table, rest);
      AltersUnderChecks(u, m, BaseEdits(rest));
      FreeAfter(u, table, n, NotNullCheck(p.name, false), Losing(rest));
      FreeOfConstraints(t, u, table, Losing(rest));
      match ApplyEdits(u, BaseEdits(rest))
      case None =>
      case Some(v) =>
        AltersKeep(u, BaseEdits(rest));
        if CheckNamesFree(t, table, Losing(ps)) {
          FreeOfConstraints(t, v, table, Losing(ps));
          FirstCheck(v, table, Losing(ps));
          PlusCheckIsPlus(v, n, p.name);
        }
    }
  }

  // ----- the same columns directly -----

  /** SET NOT NULL along the way works exactly if the columns are there and have no nulls. */
  lemma {:induction false} NullsAreLost(t: Table, table: TableID, ps: seq<ColumnPair>)
    requires NoneGains(ps) && DistinctNames(ps)
    ensures ApplyEdits(t, ColumnEdits(false, table, ps))
         == match ApplyEdits(t, BaseEdits(ps))
            case None => None
            case Some(u) =>
              if HasColumns(t, Losing(ps)) && !AnyNull(t, Losing(ps)) then Some(WithoutNulls(u, Losing(ps))) else None
    decreases |ps|, 1
  {
    if ps == [] {
      assert NotNull(t.columns, []) == t.columns;
    } else {
      var p, rest := ps[0], ps[1..];
      EditsConcat(t, PairEdits(false, table, p), ColumnEdits(false, table, rest));
      EditsConcat(t, PairBase(p), BaseEdits(rest));
      if LosesNulls(p) {
        PairLosesNulls(t, table, p);
        match ApplyEdits(t, PairBase(p))
        case None =>
        case Some(u) => OneMoreLost(t, u, table, ps);
      } else {
        match ApplyEdits(t, PairBase(p))
        case None =>
        case Some(u) => NoMoreLost(t, u, table, ps);
      }
    }
  }

  lemma NoMoreLost(t: Table, u: Table, table: TableID, ps: seq<ColumnPair>)
    requires NoneGains(ps) && DistinctNames(ps)
    requires ps != [] && !LosesNulls(ps[0]) && ApplyEdits(t, PairBase(ps[0])) == Some(u)
    ensures var rest := ps[1..];
            ApplyEdits(u, ColumnEdits(false, table, rest))
            == match ApplyEdits(u, BaseEdits(rest))
               case None => None
               case Some(v) =>
                 if HasColumns(t, Losing(ps)) && !AnyNull(t, Losing(ps)) then Some(WithoutNulls(v, Losing(ps)))
                     else None
    decreases |ps|, 0
  {
    var lost := Losing(ps[1..]);
    assert Losing(ps) == lost;
    AltersKeep(t, PairBase(ps[0]));
    NullsAreLost(u, table, ps[1..]);
    assert HasColumns(t, lost) == HasColumns(u, lost) && AnyNull(t, lost) == AnyNull(u, lost);
  }

  lemma PairLosesNulls(t: Table, table: TableID, p: ColumnPair)
    requires LosesNulls(p) && !GainsIdentity(p)
    ensures ApplyEdits(t, PairEdits(false, table, p))
         == match ApplyEdits(t, PairBase(p))
            case None => None
            case Some(u) => if p.name !in t.columns || HasNull(t, p.name) then None else Some(WithoutNulls(u, [p.name]))
  {
    var before, after := Alters(p.name, TypeChange(p) + DefaultChange(p)), Alters(p.name, IdentityChange(p));
    EditsConcat(t, before, [SetNotNull(p.name)] + after);
    EditsConcat(t, before, after);
    match ApplyEdits(t, before)
    case None =>
    case Some(u) =>
      AltersKeep(t, before);
      NotNullFirst(u, p.name, after);
  }

  lemma NotNullFirst(t: Table, c: string, after: seq<Edit>)
    requires Indifferent(after, [c])
    ensures ApplyEdits(t, [SetNotNull(c)] + after)
         == match ApplyEdits(t, after)
            case None => None
            case Some(u) => if c !in t.columns || HasNull(t, c) then None else Some(WithoutNulls(u, [c]))
  {
    assert ([SetNotNull(c)] + after)[0] == SetNotNull(c) && ([SetNotNull(c)] + after)[1..] == after;
    if c in t.columns && !HasNull(t, c) {
      AltersUnderNotNull(t, [c], after);
    }
  }

  lemma {:induction false} OthersAreIndifferent(ps: seq<ColumnPair>, c: string)
    requires forall i :: 0 <= i < |ps| ==> ps[i].name != c
    ensures Indifferent(BaseEdits(ps), [c])
    decreases |ps|
  {
    if ps == [] {
    } else {
      OthersAreIndifferent(ps[1..], c);
      PairIsIndifferent(ps[0], c);
    }
  }

  lemma PairIsIndifferent(p: ColumnPair, c: string)
    requires p.name != c
    ensures Indifferent(PairBase(p), [c])
  {
  }

  lemma OneMoreLost(t: Table, u: Table, table: TableID, ps: seq<ColumnPair>)
    requires NoneGains(ps) && DistinctNames(ps)
    requires ps != [] && LosesNulls(ps[0]) && ApplyEdits(t, PairBase(ps[0])) == Some(u)
    ensures var c, rest := ps[0].name, ps[1..];
            (if c !in t.columns || HasNull(t, c) then None
             else ApplyEdits(WithoutNulls(u, [c]), ColumnEdits(false, table, rest)))
            == match ApplyEdits(u, BaseEdits(rest))
               case None => None
               case Some(v) =>
                 if HasColumns(t, Losing(ps)) && !AnyNull(t, Losing(ps)) then Some(WithoutNulls(v, Losing(ps)))
                     else None
    decreases |ps|, 0
  {
    var c, rest, lost := ps[0].name, ps[1..], Losing(ps[1..]);
    assert Losing(ps) == [c] + lost && Losing(ps)[1..] == lost;
    AltersKeep(t, PairBase(ps[0]));
    FirstColumn(t, Losing(ps));
    if c in t.columns && !HasNull(t, c) {
      var lostOne := WithoutNulls(u, [c]);
      assert HasColumns(lostOne, lost) == HasColumns(t, lost) && AnyNull(lostOne, lost) == AnyNull(t, lost);
      LostBefore(u, table, rest, c);
    }
  }

  lemma LostBefore(u: Table, table: TableID, rest: seq<ColumnPair>, c: string)
    requires NoneGains(rest) && DistinctNames(rest) && forall i :: 0 <= i < |rest| ==> rest[i].name != c
    ensures var lost, lostOne := Losing(rest), WithoutNulls(u, [c]);
            ApplyEdits(lostOne, ColumnEdits(false, table, rest))
            == match ApplyEdits(u, BaseEdits(rest))
               case None => None
               case Some(v) =>
                 if HasColumns(lostOne, lost) && !AnyNull(lostOne, lost) then Some(WithoutNulls(v, [c] + lost))
                     else None
    decreases |rest|, 2
  {
    NullsAreLost(WithoutNulls(u, [c]), table, rest);
    OthersAreIndifferent(rest, c);
    AltersUnderNotNull(u, [c], BaseEdits(rest));
    match ApplyEdits(u, BaseEdits(rest))
    case None =>
    case Some(v) => LostBoth(v, c, Losing(rest));
  }

  lemma LostBoth(t: Table, c: string, cs: seq<string>)
    ensures WithoutNulls(WithoutNulls(t, [c]), cs) == WithoutNulls(t, [c] + cs)
  {
    assert NotNull(NotNull(t.columns, [c]), cs) == NotNull(t.columns, [c] + cs);
  }

  // ----- columns that gain an identity -----

  /** A column that still may have nulls cannot become an identity column. */
  lemma {:induction false} IdentityIsRefused(t: Table, ps: seq<ColumnPair>)
    requires FitsSource(t, ps) && DistinctNames(ps) && !NoneGains(ps)
    ensures ApplyEdits(t, BaseEdits(ps)) == None
    decreases |ps|
  {
    var p, rest := ps[0], ps[1..];
    EditsConcat(t, PairBase(p), BaseEdits(rest));
    if LosesNulls(p) && GainsIdentity(p) {
      PairIsRefused(t, p);
    } else {
      match ApplyEdits(t, PairBase(p))
      case None =>
      case Some(u) =>
        RestFits(t, u, ps);
        IdentityIsRefused(u, rest);
    }
  }

  lemma RestFits(t: Table, u: Table, ps: seq<ColumnPair>)
    requires ps != [] && FitsSource(t, ps) && DistinctNames(ps) && ApplyEdits(t, PairBase(ps[0])) == Some(u)
    ensures FitsSource(u, ps[1..]) && DistinctNames(ps[1..])
  {
    var rest := ps[1..];
    OthersStay(t, PairBase(ps[0]), ps[0].name);
    forall i | 0 <= i < |rest| && LosesNulls(rest[i]) && rest[i].name in u.columns
      ensures !u.columns[rest[i].name].notNull
    {
      assert rest[i] == ps[i + 1];
    }
  }

  lemma {:induction false} OthersStay(t: Table, es: seq<Edit>, c: string)
    requires AllAlter(es) && (forall i :: 0 <= i < |es| ==> es[i].column == c) && ApplyEdits(t, es).Some?
    ensures var u := ApplyEdits(t, es).value;
            u.columns.Keys == t.columns.Keys && forall d :: d in t.columns && d != c ==> u.columns[d] == t.columns[d]
    decreases |es|
  {
    if es == [] {
    } else {
      OthersStay(ApplyEdit(t, es[0]).value, es[1..], c);
    }
  }

  lemma PairIsRefused(t: Table, p: ColumnPair)
    requires LosesNulls(p) && GainsIdentity(p) && (p.name in t.columns ==> !t.columns[p.name].notNull)
    ensures ApplyEdits(t, PairBase(p)) == None
  {
    var changes := TypeChange(p) + DefaultChange(p);
    EditsConcat(t, Alters(p.name, changes), Alters(p.name, IdentityChange(p)));
    match ApplyEdits(t, Alters(p.name, changes))
    case None =>
    case Some(u) =>
      StillNullable(t, p.name, changes);
      assert Alters(p.name, [AddIdentity])[0] == AlterColumn(p.name, AddIdentity);
  }

  lemma {:induction false} StillNullable(t: Table, c: string, changes: seq<Change>)
    requires forall i :: 0 <= i < |changes| ==> changes[i].SetType? || changes[i].SetDefault? || changes[i].DropDefault?
    requires ApplyEdits(t, Alters(c, changes)).Some? && (c in t.columns ==> !t.columns[c].notNull)
    ensures var u := ApplyEdits(t, Alters(c, changes)).value; c in u.columns ==> !u.columns[c].notNull
    decreases |changes|
  {
    if changes == [] {
    } else {
      var es := Alters(c, changes);
      assert es[1..] == Alters(c, changes[1..]) && es[0] == AlterColumn(c, changes[0]);
      StillNullable(ApplyEdit(t, es[0]).value, c, changes[1..]);
    }
  }

  // ----- the stages -----

  /** From version 12 on: the names of the checks are free, and no column gains an identity as it loses its nulls. */
  predicate ColumnsFit(version: nat, t: Table, table: TableID, ps: seq<ColumnPair>) {
    version >= 12 ==> CheckNamesFree(t, table, Losing(ps)) && NoneGains(ps)
  }

  /** The stages of the columns come to the direct changes where they fit, and are refused where they do not. */
  lemma ColumnsInStages(version: nat, t: Table, table: TableID, ps: seq<ColumnPair>)
    requires DistinctNames(ps) && FitsSource(t, ps)
    ensures ApplyEdits(t, ColumnEdits(version >= 12, table, ps) + ValidateChecks(table, Validated(version, ps)))
         == if ColumnsFit(version, t, table, ps) then ApplyEdits(t, ColumnEdits(false, table, ps)) else None
  {
    ValidatedLose(version, ps);
    if version < 12 {
      assert ColumnEdits(false, table, ps) + [] == ColumnEdits(false, table, ps);
    } else {
      var lost := Losing(ps);
      EditsConcat(t, ColumnEdits(true, table, ps), ValidateChecks(table, lost));
      ChecksAreAdded(t, table, ps);
      if !NoneGains(ps) {
        IdentityIsRefused(t, ps);
      } else {
        NullsAreLost(t, table, ps);
        match ApplyEdits(t, BaseEdits(ps))
        case None =>
        case Some(u) =>
          if CheckNamesFree(t, table, lost) && HasColumns(t, lost) {
            ValidatedAfter(t, u, table, ps);
          }
      }
    }
  }

  lemma ValidatedAfter(t: Table, u: Table, table: TableID, ps: seq<ColumnPair>)
    requires ApplyEdits(t, BaseEdits(ps)) == Some(u)
    requires CheckNamesFree(t, table, Losing(ps)) && HasColumns(t, Losing(ps))
    ensures ApplyEdits(WithChecks(u, table, Losing(ps)), ValidateChecks(table, Losing(ps)))
         == if AnyNull(t, Losing(ps)) then None else Some(WithoutNulls(u, Losing(ps)))
  {
    AltersKeep(t, BaseEdits(ps));
    FreeOfConstraints(t, u, table, Losing(ps));
    ChecksAreValidated(u, table, Losing(ps));
    assert AnyNull(u, Losing(ps)) == AnyNull(t, Losing(ps));
  }
}
