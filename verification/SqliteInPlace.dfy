/** Altering a SQLite table in place: when it works, and what it comes to. */
module SqliteInPlace {
  import opened Common
  import opened Catalogs
  import opened SqliteTables
  import opened SqlitePlan
  import opened SqliteShapes

  // ----- indexes -----

  lemma {:induction false} IndexDropsRun(table: string, st: State, xs: seq<Index>)
    requires Plain(xs) && Names(xs) <= st.indexes.Keys
    ensures ApplyEdits(table, st, IndexDrops(xs)) == Some(st.(indexes := st.indexes - Names(xs)))
  {
    if xs == [] {
      assert st.indexes - {} == st.indexes;
    } else {
      var init, last := xs[..|xs| - 1], xs[|xs| - 1];
      WithoutLast(st.indexes, xs);
      IndexDropsRun(table, st, init);
      assert IndexDrops(xs)[..|xs| - 1] == IndexDrops(init);
    }
  }

  lemma {:induction false} IndexCreatesRun(table: string, st: State, xs: seq<Index>)
    requires Plain(xs) && Names(xs) !! st.indexes.Keys
    requires forall x :: x in xs ==> forall c :: c in x.def.columns ==> c in st.columns
    requires forall x :: x in xs && x.def.isUnique ==> !HasDuplicates(st.rows, x.def.columns)
    ensures ApplyEdits(table, st, IndexCreates(xs)) == Some(st.(indexes := st.indexes + Live(xs)))
  {
    if xs == [] {
      assert st.indexes + map[] == st.indexes;
    } else {
      var init, last := xs[..|xs| - 1], xs[|xs| - 1];
      WithLast(st.indexes, xs);
      IndexCreatesRun(table, st, init);
      assert IndexCreates(xs)[..|xs| - 1] == IndexCreates(init);
    }
  }

  // ----- columns that are dropped -----

  lemma WithoutMore(st: State, a: set<string>, c: string)
    ensures Without(Without(st, a), {c}) == Without(st, a + {c})
  {
    assert (st.columns - a) - {c} == st.columns - (a + {c});
    assert ConstraintsWithout(ConstraintsWithout(st.constraints, a), {c})
        == ConstraintsWithout(st.constraints, a + {c});
    forall i | 0 <= i < |st.rows| ensures (st.rows[i] - a) - {c} == st.rows[i] - (a + {c}) {
    }
  }

  lemma WithoutNone(st: State)
    requires st.inline <= st.constraints.Keys
    ensures Without(st, {}) == st
  {
    assert st.columns - {} == st.columns && ConstraintsWithout(st.constraints, {}) == st.constraints;
    forall i | 0 <= i < |st.rows| ensures st.rows[i] - {} == st.rows[i] {
    }
  }

  /** A column that nothing holds is not held when others are gone. */
  lemma HeldLess(st: State, a: set<string>, c: string)
    requires !Held(st, c)
    ensures !Held(Without(st, a), c)
  {
  }

  lemma {:induction false} ColumnDropsRun(table: string, st: State, cs: seq<SqlColumn>, kept: string)
    requires Plain(cs) && Names(cs) <= st.columns.Keys && kept in st.columns && kept !in Names(cs)
    requires st.inline <= st.constraints.Keys && forall c :: c in Names(cs) ==> !Held(st, c)
    ensures ApplyEdits(table, st, ColumnDrops(cs)) == Some(Without(st, Names(cs)))
  {
    if cs == [] {
      WithoutNone(st);
    } else {
      var init, last := cs[..|cs| - 1], cs[|cs| - 1];
      WithoutLast(st.columns, cs);
      ColumnDropsRun(table, st, init, kept);
      assert ColumnDrops(cs)[..|cs| - 1] == ColumnDrops(init);
      HeldLess(st, Names(init), last.name);
      WithoutMore(st, Names(init), last.name);
      assert Names(cs) == Names(init) + {last.name};
      assert kept in Without(st, Names(init)).columns && kept != last.name;
    }
  }

  /** All columns cannot be dropped. */
  lemma DropsOfAllFail(table: string, st: State, cs: seq<SqlColumn>)
    requires Plain(cs) && cs != [] && Names(cs) == st.columns.Keys
    ensures ApplyEdits(table, st, ColumnDrops(cs)) == None
  {
    var init, last := cs[..|cs| - 1], cs[|cs| - 1];
    WithoutLast(st.columns, cs);
    assert ColumnDrops(cs)[..|cs| - 1] == ColumnDrops(init);
    if ApplyEdits(table, st, ColumnDrops(init)).Some? {
      DropsLeave(table, st, init);
      assert st.columns.Keys - Names(init) == {last.name};
    }
  }

  lemma {:induction false} DropsLeave(table: string, st: State, cs: seq<SqlColumn>)
    requires ApplyEdits(table, st, ColumnDrops(cs)).Some?
    ensures ApplyEdits(table, st, ColumnDrops(cs)).value.columns.Keys == st.columns.Keys - Names(cs)
  {
    if cs == [] {
    } else {
      var init := cs[..|cs| - 1];
      assert ColumnDrops(cs)[..|cs| - 1] == ColumnDrops(init);
      DropsLeave(table, st, init);
    }
  }

  // ----- columns that are added -----

  function Defaults(cs: seq<SqlColumn>): map<string, Option<string>> {
    if cs == [] then map[] else Defaults(cs[..|cs| - 1])[cs[|cs| - 1].name := Default(cs[|cs| - 1].def)]
  }

  function RowsPlus(rows: seq<Record>, more: map<string, Option<string>>): seq<Record> {
    seq(|rows|, i requires 0 <= i < |rows| => rows[i] + more)
  }

  /** The constraints of a table of which some columns have been added, on the way to those of another. */
  function OnTheWay(before: map<string, ConstraintDef>, after: map<string, ConstraintDef>,
                    added: set<string>): map<string, ConstraintDef> {
    map n | n in after && (n in before || OwnKey(after[n], added)) :: after[n]
  }

  /** The foreign keys that were declared with a column before, and those that come with one. */
  function InlineOf(st: State, constraints: map<string, ConstraintDef>): set<string> {
    set n | n in constraints && (n in st.inline || n !in st.constraints)
  }

  function Midway(st: State, d: Shape, cs: seq<SqlColumn>): State {
    var constraints := OnTheWay(st.constraints, d.constraints, Names(cs));
    State(st.columns + Live(cs), constraints, InlineOf(st, constraints), st.indexes, RowsPlus(st.rows, Defaults(cs)))
  }

  lemma DefaultsSnoc(rows: seq<Record>, cs: seq<SqlColumn>)
    requires cs != []
    ensures var init, last := cs[..|cs| - 1], cs[|cs| - 1];
            RowsWith(RowsPlus(rows, Defaults(init)), last.name, Default(last.def)) == RowsPlus(rows, Defaults(cs))
  {
    var init, last := cs[..|cs| - 1], cs[|cs| - 1];
    forall i | 0 <= i < |rows|
      ensures (rows[i] + Defaults(init))[last.name := Default(last.def)] == rows[i] + Defaults(cs)
    {
    }
  }

  /** The column is of the other table, not yet of this one, and its foreign key is the one it has there. */
  ghost predicate Fresh(table: string, st: State, d: Shape, c: SqlColumn) {
    && !c.ignore && c.name !in st.columns && c.name in d.columns && d.columns[c.name] == c.def
    && !c.def.isPrimaryKey && !c.def.isUnique && (st.rows == [] || FitsRows(c.def))
    && (c.def.references.Some? ==> KeyName(table, c.name) !in st.constraints)
    && ColumnFits(table, d, c.name)
  }

  ghost predicate AllFit(table: string, d: Shape) {
    forall n :: n in d.constraints ==> ConstraintFits(table, d, n)
  }

  /** With a column comes its foreign key, and no other. */
  lemma KeyComes(table: string, st: State, d: Shape, added: set<string>, c: SqlColumn)
    requires AllFit(table, d) && Fresh(table, st, d, c) && c.name !in added
    ensures ConstraintsWith(table, OnTheWay(st.constraints, d.constraints, added), c)
        == OnTheWay(st.constraints, d.constraints, added + {c.name})
    ensures c.def.references.Some? ==> KeyName(table, c.name) !in OnTheWay(st.constraints, d.constraints, added)
    ensures var before, after := OnTheWay(st.constraints, d.constraints, added),
                                 OnTheWay(st.constraints, d.constraints, added + {c.name});
            InlineOf(st, after)
            == InlineOf(st, before) + if c.def.references.Some? then {KeyName(table, c.name)} else {}
  {
    var before, after := OnTheWay(st.constraints, d.constraints, added),
        OnTheWay(st.constraints, d.constraints, added + {c.name});
    forall n | n in d.constraints && OwnKey(d.constraints[n], {c.name})
      ensures c.def.references.Some? && n == KeyName(table, c.name)
    {
      OwnerOf(table, d, c, n);
    }
    if c.def.references.Some? {
      assert ConstraintsWith(table, before, c) == after;
      assert after.Keys == before.Keys + {KeyName(table, c.name)};
    } else {
      assert before == after;
    }
  }

  lemma OwnerOf(table: string, d: Shape, c: SqlColumn, n: string)
    requires AllFit(table, d) && n in d.constraints && OwnKey(d.constraints[n], {c.name})
    requires c.name in d.columns && d.columns[c.name] == c.def
    ensures c.def.references.Some? && n == KeyName(table, c.name)
  {
    assert ConstraintFits(table, d, n);
    assert d.constraints[n].columns == [c.name];
  }

  lemma MidwayNone(st: State, d: Shape)
    requires forall n :: n in st.constraints ==> n in d.constraints && d.constraints[n] == st.constraints[n]
    requires st.inline <= st.constraints.Keys
    ensures Midway(st, d, []) == st
  {
    assert OnTheWay(st.constraints, d.constraints, {}) == st.constraints && st.columns + map[] == st.columns;
    forall i | 0 <= i < |st.rows| ensures st.rows[i] + map[] == st.rows[i] {
    }
    assert RowsPlus(st.rows, map[]) == st.rows;
  }

  ghost predicate AllFresh(table: string, st: State, d: Shape, cs: seq<SqlColumn>) {
    forall c :: c in cs ==> Fresh(table, st, d, c)
  }

  lemma FreshInit(table: string, st: State, d: Shape, cs: seq<SqlColumn>)
    requires cs != [] && AllFresh(table, st, d, cs)
    ensures AllFresh(table, st, d, cs[..|cs| - 1]) && Fresh(table, st, d, cs[|cs| - 1])
    ensures cs[|cs| - 1].name !in st.columns
  {
  }

  lemma AddStep(table: string, st: State, d: Shape, cs: seq<SqlColumn>)
    requires cs != [] && AllFit(table, d)
    requires var init, last := cs[..|cs| - 1], cs[|cs| - 1];
             Fresh(table, st, d, last) && Names(cs) == Names(init) + {last.name} && last.name !in Names(init)
             && st.columns + Live(cs) == (st.columns + Live(init))[last.name := last.def]
                && last.name !in st.columns + Live(init)
    ensures ApplyEdit(table, Midway(st, d, cs[..|cs| - 1]), AddColumn(cs[|cs| - 1])) == Some(Midway(st, d, cs))
  {
    var init, last := cs[..|cs| - 1], cs[|cs| - 1];
    KeyComes(table, st, d, Names(init), last);
    DefaultsSnoc(st.rows, cs);
  }

  lemma LastOf(m: map<string, SqliteColumn>, cs: seq<SqlColumn>)
    requires Plain(cs) && cs != [] && cs[|cs| - 1].name !in m
    ensures var init, last := cs[..|cs| - 1], cs[|cs| - 1];
            && Plain(init) && Names(cs) == Names(init) + {last.name} && last.name !in Names(init)
            && m + Live(cs) == (m + Live(init))[last.name := last.def] && last.name !in m + Live(init)
  {
    var init, last := cs[..|cs| - 1], cs[|cs| - 1];
    assert init + [last] == cs;
    WithLast(m, cs);
    NamesSnoc(init, last);
  }

  lemma {:induction false} ColumnAddsRun(table: string, st: State, d: Shape, cs: seq<SqlColumn>)
    requires Plain(cs)
    requires (forall n :: n in st.constraints ==> n in d.constraints && d.constraints[n] == st.constraints[n])
    requires AllFit(table, d) && AllFresh(table, st, d, cs) && st.inline <= st.constraints.Keys
    ensures ApplyEdits(table, st, ColumnAdds(cs)) == Some(Midway(st, d, cs))
  {
    if cs == [] {
      MidwayNone(st, d);
    } else {
      var init, last := cs[..|cs| - 1], cs[|cs| - 1];
      FreshInit(table, st, d, cs);
      LastOf(st.columns, cs);
      ColumnAddsRun(table, st, d, init);
      AddStep(table, st, d, cs);
      assert ColumnAdds(cs)[..|cs| - 1] == ColumnAdds(init);
    }
  }

  // ----- edits that are refused -----

  lemma {:induction false} RowsStay(table: string, st: State, es: seq<Edit>)
    requires ApplyEdits(table, st, es).Some?
    ensures |ApplyEdits(table, st, es).value.rows| == |st.rows|
  {
    if es == [] {
    } else {
      RowsStay(table, st, es[..|es| - 1]);
    }
  }

  /** A column that is a key, or that rows have no value for, is refused wherever it comes. */
  lemma {:induction false} RefusedAdd(table: string, st: State, cs: seq<SqlColumn>, c: SqlColumn)
    requires c in cs && (c.def.isPrimaryKey || c.def.isUnique || (st.rows != [] && !FitsRows(c.def)))
    ensures ApplyEdits(table, st, ColumnAdds(cs)) == None
  {
    var init := cs[..|cs| - 1];
    assert ColumnAdds(cs)[..|cs| - 1] == ColumnAdds(init);
    if c != cs[|cs| - 1] {
      RefusedAdd(table, st, init, c);
    } else if ApplyEdits(table, st, ColumnAdds(init)).Some? {
      RowsStay(table, st, ColumnAdds(init));
    }
  }

  /** A foreign key that is declared with the table stays so as long as its column does. */
  lemma {:induction false} TableKeyStays(table: string, st: State, cs: seq<SqlColumn>, n: string)
    requires n in st.constraints && n !in st.inline && Inline(st.constraints[n])
    requires st.constraints[n].columns[0] !in Names(cs) && ApplyEdits(table, st, ColumnDrops(cs)).Some?
    ensures var r := ApplyEdits(table, st, ColumnDrops(cs)).value;
            n in r.constraints && r.constraints[n] == st.constraints[n] && n !in r.inline
  {
    if cs == [] {
    } else {
      var init := cs[..|cs| - 1];
      assert ColumnDrops(cs)[..|cs| - 1] == ColumnDrops(init);
      TableKeyStays(table, st, init, n);
    }
  }

  /** The column of such a foreign key cannot be dropped. */
  lemma {:induction false} RefusedDrop(table: string, st: State, cs: seq<SqlColumn>, n: string)
    requires n in st.constraints && n !in st.inline && Inline(st.constraints[n])
    requires st.constraints[n].columns[0] in Names(cs)
    ensures ApplyEdits(table, st, ColumnDrops(cs)) == None
  {
    var init := cs[..|cs| - 1];
    assert ColumnDrops(cs)[..|cs| - 1] == ColumnDrops(init);
    if st.constraints[n].columns[0] in Names(init) {
      RefusedDrop(table, st, init, n);
    } else if ApplyEdits(table, st, ColumnDrops(init)).Some? {
      TableKeyStays(table, st, init, n);
    }
  }

  lemma {:induction false} RefusedCreate(table: string, st: State, xs: seq<Index>, x: Index)
    requires x in xs && x.def.isUnique && HasDuplicates(st.rows, x.def.columns)
    ensures ApplyEdits(table, st, IndexCreates(xs)) == None
  {
    var init := xs[..|xs| - 1];
    assert IndexCreates(xs)[..|xs| - 1] == IndexCreates(init);
    if x != xs[|xs| - 1] {
      RefusedCreate(table, st, init, x);
    } else if ApplyEdits(table, st, IndexCreates(init)).Some? {
      SameRows(table, st, init);
    }
  }

  lemma {:induction false} SameRows(table: string, st: State, xs: seq<Index>)
    requires ApplyEdits(table, st, IndexCreates(xs)).Some?
    ensures ApplyEdits(table, st, IndexCreates(xs)).value.rows == st.rows
  {
    if xs == [] {
    } else {
      assert IndexCreates(xs)[..|xs| - 1] == IndexCreates(xs[..|xs| - 1]);
      SameRows(table, st, xs[..|xs| - 1]);
    }
  }
}
