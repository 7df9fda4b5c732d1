/** Catalogs as the migration planners see them: schemas, tables, and named objects within
    a table, any of which can be marked as ignored. */
module Catalogs {

  import opened Common

  /** A named part of a catalog; an ignored one is treated as absent. */
  datatype Object<T> = Object(name: string, ignore: bool, def: T)

  /** Type, default and collation are in normalized form. */
  datatype ColumnDef = ColumnDef(
    columnType: string,
    default: string,
    isNotNull: bool,
    isPrimaryKey: bool,
    identity: string,
    collation: string)

  datatype ConstraintType = PrimaryKey | Unique | ForeignKey | Check

  datatype ConstraintDef = ConstraintDef(
    constraintType: ConstraintType,
    columns: seq<string>,
    references: TableID,
    referencesColumns: seq<string>)

  datatype IndexDef = IndexDef(isUnique: bool, columns: seq<string>)

  type Column = Object<ColumnDef>
  type Constraint = Object<ConstraintDef>
  type Index = Object<IndexDef>

  datatype TableDef = TableDef(columns: seq<Column>, constraints: seq<Constraint>, indexes: seq<Index>)

  type Table = Object<TableDef>

  /** A schema's definition is its list of tables. */
  type Schema = Object<seq<Table>>

  datatype Catalog = Catalog(defaultCollation: string, schemas: seq<Schema>)

  // ----- looking objects up -----

  /** The lookup of the catalog cache: the last object of the name, unless it is ignored. */
  function Find<T>(xs: seq<Object<T>>, name: string): Option<Object<T>> {
    if xs == [] then None
    else if xs[|xs| - 1].name == name then
      if xs[|xs| - 1].ignore then None else Some(xs[|xs| - 1])
    else Find(xs[..|xs| - 1], name)
  }

  /** The objects of a list that are not ignored, by name. */
  function Live<T>(xs: seq<Object<T>>): map<string, T> {
    if xs == [] then map[]
    else
      var x := xs[|xs| - 1];
      if x.ignore then Live(xs[..|xs| - 1]) else Live(xs[..|xs| - 1])[x.name := x.def]
  }

  ghost predicate UniqueNames<T>(xs: seq<Object<T>>) {
    forall i, k :: 0 <= i < k < |xs| ==> xs[i].name != xs[k].name
  }

  /** Unique names, and nothing ignored. */
  ghost predicate Plain<T>(xs: seq<Object<T>>) {
    UniqueNames(xs) && forall i :: 0 <= i < |xs| ==> !xs[i].ignore
  }

  lemma {:induction false} LiveMember<T(!new)>(xs: seq<Object<T>>, name: string)
    requires UniqueNames(xs)
    ensures name in Live(xs) <==> exists x :: x in xs && !x.ignore && x.name == name
    ensures forall x :: x in xs && !x.ignore ==> x.name in Live(xs) && Live(xs)[x.name] == x.def
  {
    if xs == [] {
    } else {
      var init, last := xs[..|xs| - 1], xs[|xs| - 1];
      assert xs == init + [last];
      LiveMember(init, name);
      forall x | x in init ensures x.name != last.name {
      }
      if name in Live(xs) && (last.ignore || name != last.name) {
        var x :| x in init && !x.ignore && x.name == name;
        assert x in xs;
      }
    }
  }

  lemma {:induction false} FindIsLive<T(!new)>(xs: seq<Object<T>>, name: string)
    requires UniqueNames(xs)
    ensures Find(xs, name).Some? <==> name in Live(xs)
    ensures Find(xs, name).Some? ==> && Find(xs, name).value in xs && !Find(xs, name).value.ignore
                                     && Find(xs, name).value.name == name && Find(xs, name).value.def == Live(xs)[name]
  {
    if xs == [] {
    } else {
      var init, last := xs[..|xs| - 1], xs[|xs| - 1];
      assert xs == init + [last];
      FindIsLive(init, name);
      LiveMember(init, last.name);
    }
  }

  /** The live objects of one list that another list does not have, in order. */
  function Missing<T>(xs: seq<Object<T>>, others: seq<Object<T>>): seq<Object<T>> {
    if xs == [] then []
    else
      var x := xs[|xs| - 1];
      Missing(xs[..|xs| - 1], others) + (if !x.ignore && Find(others, x.name).None? then [x] else [])
  }

  method MissingFrom<T>(xs: seq<Object<T>>, others: seq<Object<T>>) returns (missing: seq<Object<T>>)
    ensures missing == Missing(xs, others)
  {
    missing := [];
    for k := 0 to |xs|
      invariant missing == Missing(xs[..k], others)
    {
      assert xs[..k + 1][..k] == xs[..k];
      if !xs[k].ignore && Find(others, xs[k].name).None? {
        missing := missing + [xs[k]];
      }
    }
    assert xs[..|xs|] == xs;
  }

  lemma {:induction false} MissingMember<T(!new)>(xs: seq<Object<T>>, others: seq<Object<T>>)
    requires UniqueNames(xs) && UniqueNames(others)
    ensures forall x {:trigger x in Missing(xs, others)} {:trigger x in xs} :: x in Missing(xs, others) <==>
        x in xs && !x.ignore && x.name !in Live(others)
    ensures Plain(Missing(xs, others))
  {
    if xs == [] {
    } else {
      var init, last := xs[..|xs| - 1], xs[|xs| - 1];
      assert xs == init + [last];
      MissingMember(init, others);
      FindIsLive(others, last.name);
      forall x | x in init ensures x.name != last.name {
      }
      forall i | 0 <= i < |Missing(init, others)| ensures Missing(init, others)[i].name != last.name {
        assert Missing(init, others)[i] in Missing(init, others);
      }
    }
  }

  /** The names of a list of objects. */
  function Names<T>(xs: seq<Object<T>>): (names: set<string>)
    ensures forall x :: x in xs ==> x.name in names
  {
    if xs == [] then {} else Names(xs[..|xs| - 1]) + {xs[|xs| - 1].name}
  }

  lemma {:induction false} NamesConcat<T>(xs: seq<Object<T>>, ys: seq<Object<T>>)
    ensures Names(xs + ys) == Names(xs) + Names(ys)
  {
    if ys == [] {
      assert xs + ys == xs;
    } else {
      NamesConcat(xs, ys[..|ys| - 1]);
      assert (xs + ys)[..|xs + ys| - 1] == xs + ys[..|ys| - 1];
    }
  }

  lemma NamesSnoc<T>(xs: seq<Object<T>>, x: Object<T>)
    ensures Names(xs + [x]) == Names(xs) + {x.name}
    ensures UniqueNames(xs + [x]) ==> x.name !in Names(xs)
  {
    assert (xs + [x])[..|xs|] == xs;
    NamesMember(xs, x.name);
  }

  lemma {:induction false} NamesMember<T>(xs: seq<Object<T>>, name: string)
    ensures name in Names(xs) <==> exists i :: 0 <= i < |xs| && xs[i].name == name
  {
    if xs == [] {
    } else {
      var init := xs[..|xs| - 1];
      NamesMember(init, name);
      if i: nat :| i < |init| && init[i].name == name {
        assert xs[i].name == name;
      }
      if i: nat :| i < |xs| && xs[i].name == name {
        assert i < |init| ==> init[i].name == name;
      }
    }
  }

  /** Removing the names of a list one by one. */
  lemma WithoutLast<T, U>(m: map<string, U>, xs: seq<Object<T>>)
    requires xs != []
    ensures var init, last := xs[..|xs| - 1], xs[|xs| - 1];
      && (m - Names(init)) - {last.name} == m - Names(xs)
      && Names(init) <= Names(xs) && last.name in Names(xs)
      && (UniqueNames(xs) ==> UniqueNames(init) && last.name !in Names(init))
  {
    var init, last := xs[..|xs| - 1], xs[|xs| - 1];
    assert xs == init + [last];
    NamesSnoc(init, last);
  }

  /** Adding the objects of a list one by one. */
  lemma WithLast<T(!new)>(m: map<string, T>, xs: seq<Object<T>>)
    requires xs != [] && Plain(xs)
    ensures var init, last := xs[..|xs| - 1], xs[|xs| - 1];
      && (m + Live(init))[last.name := last.def] == m + Live(xs)
      && Names(init) <= Names(xs) && last.name in Names(xs) && last in xs && !last.ignore
      && Plain(init) && (forall x :: x in init ==> x in xs)
      && (last.name !in m ==> last.name !in m + Live(init))
  {
    var init, last := xs[..|xs| - 1], xs[|xs| - 1];
    assert xs == init + [last];
    NamesSnoc(init, last);
    LiveInNames(init);
  }

  lemma {:induction false} LiveInNames<T>(xs: seq<Object<T>>)
    ensures Live(xs).Keys <= Names(xs)
  {
    if xs == [] {
    } else {
      LiveInNames(xs[..|xs| - 1]);
    }
  }

  /** The objects of a plain list, as a map. */
  lemma LiveOf<T(!new)>(xs: seq<Object<T>>)
    requires Plain(xs)
    ensures Live(xs).Keys == Names(xs)
    ensures forall x :: x in xs ==> x.name in Live(xs) && Live(xs)[x.name] == x.def
    ensures forall n :: n in Live(xs) ==> Object(n, false, Live(xs)[n]) in xs
  {
    NamesOfLive(xs);
    LiveMember(xs, "");
    forall n | n in Live(xs) ensures Object(n, false, Live(xs)[n]) in xs {
      LiveMember(xs, n);
      var x :| x in xs && !x.ignore && x.name == n;
    }
  }

  /** Part of a plain list, as a map. */
  lemma LiveOfPart<T(!new)>(xs: seq<Object<T>>, part: seq<Object<T>>, n: string)
    requires Plain(xs) && Plain(part) && forall x :: x in part ==> x in xs
    ensures Names(part) == Live(part).Keys
    ensures n in Live(part) <==> n in Live(xs) && Object(n, false, Live(xs)[n]) in part
    ensures n in Live(part) ==> Live(part)[n] == Live(xs)[n]
    ensures n in Live(xs) ==> Object(n, false, Live(xs)[n]) in xs
  {
    LiveOf(xs);
    LiveOf(part);
  }

  lemma {:induction false} PlainInit<T>(xs: seq<Object<T>>)
    requires Plain(xs) && xs != []
    ensures Plain(xs[..|xs| - 1])
    ensures forall x :: x in xs[..|xs| - 1] ==> x.name != xs[|xs| - 1].name
  {
  }

  /** With nothing ignored, every name is live. */
  lemma {:induction false} NamesOfLive<T>(xs: seq<Object<T>>)
    requires forall i :: 0 <= i < |xs| ==> !xs[i].ignore
    ensures Live(xs).Keys == Names(xs)
  {
    if xs == [] {
    } else {
      NamesOfLive(xs[..|xs| - 1]);
    }
  }
}
