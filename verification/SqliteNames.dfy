/** The names that constraints of SQLite tables get, by which they are compared: when two of them are the same, and what
    the comparison finds where they are not. */
module SqliteNames {
  import opened Common
  import opened Catalogs
  import opened SqliteTables
  import opened SqlitePlan

  // ----- the text of a name -----

  /** The table and the columns, with underscores between them. */
  function Flat(table: string, columns: seq<string>): string {
    if columns == [] then table else Flat(table, columns[..|columns| - 1]) + "_" + columns[|columns| - 1]
  }

  function NoSpaces(s: string): string {
    seq(|s|, i requires 0 <= i < |s| => if s[i] == ' ' then '_' else s[i])
  }

  /** What fits with the suffix into 63 characters: 58, or 59 for a unique constraint. */
  function Fitting(constraintType: ConstraintType, s: string): string {
    var room := if constraintType == Unique then 59 else 58;
    if |s| > room then s[..room] else s
  }

  lemma {:induction false} UnderscoredIs(s: string)
    ensures Underscored(s) == NoSpaces(s)
  {
    if s == "" {
    } else {
      UnderscoredIs(s[1..]);
    }
  }

  lemma NoSpacesConcat(a: string, b: string)
    ensures NoSpaces(a + b) == NoSpaces(a) + NoSpaces(b)
  {
  }

  lemma {:induction false} JoinedLast(columns: seq<string>)
    requires columns != []
    ensures Joined(columns) == Joined(columns[..|columns| - 1]) + "_" + Underscored(columns[|columns| - 1])
  {
    if |columns| == 1 {
      assert columns[1..] == [] && columns[..0] == [];
    } else {
      var init := columns[..|columns| - 1];
      assert columns[1..][..|columns| - 2] == init[1..];
      JoinedLast(columns[1..]);
      assert init[0] == columns[0];
    }
  }

  lemma {:induction false} FlatIs(table: string, columns: seq<string>)
    ensures Underscored(table) + Joined(columns) == NoSpaces(Flat(table, columns))
  {
    if columns == [] {
      UnderscoredIs(table);
    } else {
      var init, last := columns[..|columns| - 1], columns[|columns| - 1];
      FlatIs(table, init);
      JoinedLast(columns);
      UnderscoredIs(last);
      NoSpacesConcat(Flat(table, init), "_" + last);
      NoSpacesConcat("_", last);
      assert Flat(table, columns) == Flat(table, init) + ("_" + last);
    }
  }

  /** A generated name. */
  lemma NameExactly(constraintType: ConstraintType, table: string, columns: seq<string>)
    requires constraintType != Check
    ensures GenerateName(constraintType, table, columns)
         == Fitting(constraintType, NoSpaces(Flat(table, columns)))
            + (if constraintType == PrimaryKey then "_pkey"
               else if constraintType == ForeignKey then "_fkey" else "_key")
  {
    FlatIs(table, columns);
  }

  // ----- when two names are the same -----

  /** Two generated names are the same exactly if they are of one type and have the same text, as far as it fits. */
  lemma SameNameExactly(a: ConstraintType, b: ConstraintType, table: string, xs: seq<string>, ys: seq<string>)
    requires a != Check && b != Check
    ensures GenerateName(a, table, xs) == GenerateName(b, table, ys) <==>
            a == b && Fitting(a, NoSpaces(Flat(table, xs))) == Fitting(a, NoSpaces(Flat(table, ys)))
  {
    var s, t := Fitting(a, NoSpaces(Flat(table, xs))), Fitting(b, NoSpaces(Flat(table, ys)));
    var n, m := GenerateName(a, table, xs), GenerateName(b, table, ys);
    NameExactly(a, table, xs);
    NameExactly(b, table, ys);
    assert |n| >= 4 && n[|n| - 4] == if a == PrimaryKey then 'p' else if a == ForeignKey then 'f' else '_' by {
      TypeShows(s, a);
    }
    assert |m| >= 4 && m[|m| - 4] == if b == PrimaryKey then 'p' else if b == ForeignKey then 'f' else '_' by {
      TypeShows(t, b);
    }
    if n == m {
      assert s == n[..|n| - |Suffix(a)|] && t == m[..|m| - |Suffix(b)|];
    }
  }

  lemma TypeShows(s: string, a: ConstraintType)
    requires a != Check
    ensures var n := s + (if a == PrimaryKey then "_pkey" else if a == ForeignKey then "_fkey" else "_key");
      |n| >= 4 && n[|n| - 4] == if a == PrimaryKey then 'p' else if a == ForeignKey then 'f' else '_'
  {
  }

  /** Neither spaces nor underscores. */
  predicate Simple(s: string) {
    ' ' !in s && '_' !in s
  }

  predicate AllSimple(columns: seq<string>) {
    forall i :: 0 <= i < |columns| ==> Simple(columns[i])
  }

  lemma NoneAfterLast(a: string, x: string, i: int)
    requires '_' !in x && |a| < i < |a + "_" + x|
    ensures (a + "_" + x)[i] != '_'
  {
    assert (a + "_" + x)[i] == x[i - |a| - 1];
  }

  lemma SplitAtLast(a: string, x: string, b: string, y: string)
    requires a + "_" + x == b + "_" + y && '_' !in x && '_' !in y
    ensures a == b && x == y
  {
    var s := a + "_" + x;
    assert s[|a|] == '_' && s[|b|] == '_';
    if |a| < |b| {
      NoneAfterLast(a, x, |b|);
    } else if |b| < |a| {
      NoneAfterLast(b, y, |a|);
    }
    assert s[..|a|] == a && s[..|b|] == b && s[|a| + 1..] == x && s[|b| + 1..] == y;
  }

  lemma {:induction false} FlatLength(table: string, columns: seq<string>)
    ensures |Flat(table, columns)| >= |table| + |columns|
  {
    if columns == [] {
    } else {
      FlatLength(table, columns[..|columns| - 1]);
    }
  }

  lemma SimpleStays(s: string)
    requires Simple(s)
    ensures NoSpaces(s) == s
  {
    forall i | 0 <= i < |s| ensures s[i] != ' ' {
      assert s[i] in s;
    }
  }

  /** Simple columns can be read from the text. */
  lemma {:induction false} TextTellsColumns(table: string, xs: seq<string>, ys: seq<string>)
    requires AllSimple(xs) && AllSimple(ys) && NoSpaces(Flat(table, xs)) == NoSpaces(Flat(table, ys))
    ensures xs == ys
  {
    FlatLength(table, xs);
    FlatLength(table, ys);
    assert |Flat(table, xs)| == |NoSpaces(Flat(table, xs))| && |Flat(table, ys)| == |NoSpaces(Flat(table, ys))|;
    if xs != [] && ys != [] {
      var x, y := xs[|xs| - 1], ys[|ys| - 1];
      var a, b := Flat(table, xs[..|xs| - 1]), Flat(table, ys[..|ys| - 1]);
      LastColumnShows(a, x);
      LastColumnShows(b, y);
      SplitAtLast(NoSpaces(a), x, NoSpaces(b), y);
      TextTellsColumns(table, xs[..|xs| - 1], ys[..|ys| - 1]);
      assert xs == xs[..|xs| - 1] + [x] && ys == ys[..|ys| - 1] + [y];
    }
  }

  lemma LastColumnShows(a: string, x: string)
    requires Simple(x)
    ensures NoSpaces(a + "_" + x) == NoSpaces(a) + "_" + x
  {
    SimpleStays(x);
    NoSpacesConcat(a + "_", x);
    NoSpacesConcat(a, "_");
  }

  /** If the columns are simple and everything fits, names are the same exactly if types and columns are. */
  lemma SimpleNamesExactly(a: ConstraintType, b: ConstraintType, table: string, xs: seq<string>, ys: seq<string>)
    requires a != Check && b != Check && AllSimple(xs) && AllSimple(ys)
    requires |Flat(table, xs)| <= 58 && |Flat(table, ys)| <= 58
    ensures GenerateName(a, table, xs) == GenerateName(b, table, ys) <==> a == b && xs == ys
  {
    SameNameExactly(a, b, table, xs, ys);
    if NoSpaces(Flat(table, xs)) == NoSpaces(Flat(table, ys)) {
      TextTellsColumns(table, xs, ys);
    }
  }

  /** A column with an underscore can be taken for two, so that a unique constraint on it is not told from one on
      them. */
  lemma UnderscoresCollide(constraintType: ConstraintType, table: string, a: string, b: string)
    requires constraintType != Check
    ensures GenerateName(constraintType, table, [a + "_" + b]) == GenerateName(constraintType, table, [a, b])
  {
    FlatOne(table, a + "_" + b);
    FlatTwo(table, a, b);
    assert table + "_" + (a + "_" + b) == table + "_" + a + "_" + b;
    SameNameExactly(constraintType, constraintType, table, [a + "_" + b], [a, b]);
  }

  lemma FlatOne(table: string, a: string)
    ensures Flat(table, [a]) == table + "_" + a
  {
    assert [a][..0] == [];
  }

  lemma FlatTwo(table: string, a: string, b: string)
    ensures Flat(table, [a, b]) == table + "_" + a + "_" + b
  {
    FlatOne(table, a);
    assert [a, b][..1] == [a];
  }

  // ----- what the comparison finds -----

  /** The name that a constraint is compared by. */
  function ComparedBy(table: string, c: Constraint): string {
    if c.def.constraintType == Check then c.name
    else
      Fitting(c.def.constraintType, NoSpaces(Flat(table, c.def.columns)))
      + (if c.def.constraintType == PrimaryKey then "_pkey"
         else if c.def.constraintType == ForeignKey then "_fkey" else "_key")
  }

  /** Constraints of one type, on the same columns; CHECKs of the same name. */
  predicate SameKey(c: Constraint, d: Constraint) {
    && c.def.constraintType == d.def.constraintType
    && if c.def.constraintType == Check then c.name == d.name else c.def.columns == d.def.columns
  }

  /** Only constraints that are the same are compared by the same name. */
  ghost predicate NoCollisions(table: string, xs: seq<Constraint>, ys: seq<Constraint>) {
    forall i, k :: 0 <= i < |xs| && 0 <= k < |ys| && ComparedBy(table, xs[i]) == ComparedBy(table, ys[k]) ==>
      SameKey(xs[i], ys[k])
  }

  lemma {:induction false} RenamedAt(table: string, cs: seq<Constraint>, i: nat)
    requires i < |cs|
    ensures |Renamed(table, cs)| == |cs|
    ensures Renamed(table, cs)[i] == cs[i].(name := ComparedBy(table, cs[i]))
  {
    var init := cs[..|cs| - 1];
    RenamedLength(table, cs);
    RenamedLength(table, init);
    if i == |cs| - 1 {
      if cs[i].def.constraintType != Check {
        NameExactly(cs[i].def.constraintType, table, cs[i].def.columns);
      }
    } else {
      RenamedAt(table, init, i);
    }
  }

  lemma {:induction false} RenamedLength(table: string, cs: seq<Constraint>)
    ensures |Renamed(table, cs)| == |cs|
  {
    if cs == [] {
    } else {
      RenamedLength(table, cs[..|cs| - 1]);
    }
  }

  lemma {:induction false} FoundExactly<T>(xs: seq<Object<T>>, name: string)
    requires forall k :: 0 <= k < |xs| ==> !xs[k].ignore
    ensures Find(xs, name).Some? <==> exists k :: 0 <= k < |xs| && xs[k].name == name
  {
    if xs == [] {
    } else {
      var init := xs[..|xs| - 1];
      FoundExactly(init, name);
      if k :| 0 <= k < |init| && init[k].name == name {
        assert xs[k].name == name;
      }
      if k :| 0 <= k < |xs| && xs[k].name == name {
        assert k < |init| ==> init[k].name == name;
      }
    }
  }

  lemma {:induction false} MissingExactly<T(!new)>(xs: seq<Object<T>>, others: seq<Object<T>>, x: Object<T>)
    ensures x in Missing(xs, others) <==> x in xs && !x.ignore && Find(others, x.name).None?
  {
    if xs == [] {
    } else {
      var init, last := xs[..|xs| - 1], xs[|xs| - 1];
      assert xs == init + [last];
      MissingExactly(init, others, x);
    }
  }

  ghost predicate HasSame(cs: seq<Constraint>, c: Constraint) {
    exists k :: 0 <= k < |cs| && SameKey(c, cs[k])
  }

  /** Where names tell constraints apart, one is found missing exactly if the other table has none of its type on its
      columns. */
  lemma MissingKeyExactly(table: string, src: seq<Constraint>, dest: seq<Constraint>, i: nat)
    requires i < |src| && !src[i].ignore && (forall k :: 0 <= k < |dest| ==> !dest[k].ignore)
    requires NoCollisions(table, src, dest)
    ensures src[i].(name := ComparedBy(table, src[i])) in Missing(Renamed(table, src), Renamed(table, dest))
       <==> !HasSame(dest, src[i])
  {
    var c := src[i].(name := ComparedBy(table, src[i]));
    RenamedAt(table, src, i);
    assert Renamed(table, src)[i] == c && c in Renamed(table, src);
    MissingExactly(Renamed(table, src), Renamed(table, dest), c);
    FoundSameExactly(table, src, dest, i);
  }

  lemma FoundSameExactly(table: string, src: seq<Constraint>, dest: seq<Constraint>, i: nat)
    requires i < |src| && (forall k :: 0 <= k < |dest| ==> !dest[k].ignore) && NoCollisions(table, src, dest)
    ensures Find(Renamed(table, dest), ComparedBy(table, src[i])).Some? <==> HasSame(dest, src[i])
  {
    var ys, name := Renamed(table, dest), ComparedBy(table, src[i]);
    RenamedLength(table, dest);
    forall k | 0 <= k < |dest| ensures ys[k] == dest[k].(name := ComparedBy(table, dest[k])) {
      RenamedAt(table, dest, k);
    }
    FoundExactly(ys, name);
    if k :| 0 <= k < |dest| && SameKey(src[i], dest[k]) {
      assert ys[k].name == name;
    }
    if k :| 0 <= k < |ys| && ys[k].name == name {
      assert SameKey(src[i], dest[k]);
    }
  }

  /** The comparison of two tables whose constraints got their names. */
  lemma ComparedExactly(table: string, src: SqliteTable, dest: SqliteTable, i: nat)
    requires forall k :: 0 <= k < |src.constraints| ==> !src.constraints[k].ignore
    requires forall k :: 0 <= k < |dest.constraints| ==> !dest.constraints[k].ignore
    requires NoCollisions(table, src.constraints, dest.constraints)
    requires NoCollisions(table, dest.constraints, src.constraints)
    ensures var a := Diff(src.(constraints := Renamed(table, src.constraints)),
                          dest.(constraints := Renamed(table, dest.constraints)));
      && (i < |src.constraints| ==>
            (src.constraints[i].(name := ComparedBy(table, src.constraints[i])) in a.dropConstraints <==>
             !HasSame(dest.constraints, src.constraints[i])))
      && (i < |dest.constraints| ==>
            (dest.constraints[i].(name := ComparedBy(table, dest.constraints[i])) in a.addConstraints <==>
             !HasSame(src.constraints, dest.constraints[i])))
  {
    if i < |src.constraints| {
      MissingKeyExactly(table, src.constraints, dest.constraints, i);
    }
    if i < |dest.constraints| {
      MissingKeyExactly(table, dest.constraints, src.constraints, i);
    }
  }
}
