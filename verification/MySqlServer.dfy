/** The indexes that MySQL keeps for foreign keys: a foreign key gets one if nothing else in its table serves it, leaves
    it behind when it goes, and does not go without one. */
module MySqlServer {
  import opened Common
  import opened Catalogs
  import opened MySqlDatabase

  /** The generated indexes of a table, with their columns. */
  type Generated = map<string, seq<string>>

  datatype Server = Server(db: Database, generated: map<TableID, Generated>)

  // ----- one table -----

  /** A key or an index of the table starts with the columns. */
  predicate Serves(ts: TableState, columns: seq<string>) {
    || (exists n :: n in ts.constraints && IsKeyDef(ts.constraints[n]) && columns <= ts.constraints[n].columns)
    || (exists n :: n in ts.indexes && columns <= ts.indexes[n].columns)
  }

  predicate ServesGenerated(g: Generated, columns: seq<string>) {
    exists n :: n in g && columns <= g[n]
  }

  predicate Served(ts: TableState, g: Generated, columns: seq<string>) {
    Serves(ts, columns) || ServesGenerated(g, columns)
  }

  /** A longer generated index starts with the columns of this one. */
  predicate Longer(g: Generated, n: string)
    requires n in g
  {
    exists m :: m in g && g[n] < g[m]
  }

  /** MySQL drops a generated index that another key or index makes redundant. */
  function Tidied(g: Generated, ts: TableState): Generated {
    map n | n in g && !Serves(ts, g[n]) && !Longer(g, n) :: g[n]
  }

  function Filtered(columns: seq<string>, dropped: set<string>): seq<string> {
    if columns == [] then []
    else
      var last := columns[|columns| - 1];
      Filtered(columns[..|columns| - 1], dropped) + (if last in dropped then [] else [last])
  }

  /** A dropped column leaves the indexes that it is part of, and an index without columns goes. */
  function WithoutColumns(g: Generated, dropped: set<string>): Generated {
    map n | n in g && Filtered(g[n], dropped) != [] :: Filtered(g[n], dropped)
  }

  function DroppedBy(clauses: seq<Clause>): set<string> {
    if clauses == [] then {}
    else
      DroppedBy(clauses[..|clauses| - 1])
      + (if clauses[|clauses| - 1].DropColumn? then {clauses[|clauses| - 1].name} else {})
  }

  /** No two of a table's keys and indexes have the same name. */
  predicate NamesApart(ts: TableState, g: Generated) {
    && (forall n :: n in ts.constraints && IsKeyDef(ts.constraints[n]) ==> n !in ts.indexes && n !in g)
    && (forall n :: n in g ==> n !in ts.indexes)
  }

  predicate FkeysServed(ts: TableState, g: Generated) {
    forall n :: n in ts.constraints && ts.constraints[n].constraintType == ForeignKey ==>
      Served(ts, g, ts.constraints[n].columns)
  }

  /** What MySQL checks of the table that a statement leaves. */
  predicate Sane(ts: TableState, g: Generated) {
    NamesApart(ts, g) && FkeysServed(ts, g)
  }

  // ----- statements -----

  /** The table whose keys and indexes a statement is about. */
  function TableChanged(s: Statement): Option<TableID> {
    match s
    case DropForeignKey(t, _) => Some(t)
    case CreateTable(t, _, _) => Some(t)
    case CreateIndex(t, _) => Some(t)
    case AlterTable(t, _) => Some(t)
    case AddForeignKey(t, _) => Some(t)
    case DropSchemaIfExists(_) => None
    case CreateSchemaIfNotExists(_) => None
    case DropTableIfExists(_) => None
  }

  /** The generated indexes of the table that a statement leaves in state ts. */
  function NextGenerated(s: Statement, g: Generated, ts: TableState): Generated {
    match s
    case CreateTable(_, _, _) => map[]
    case CreateIndex(_, _) => Tidied(g, ts)
    case AlterTable(_, clauses) => Tidied(WithoutColumns(g, DroppedBy(clauses)), ts)
    case AddForeignKey(_, c) => AfterFkey(g, c.name, c.def.columns, ts)
    case _ => g
  }

  /** A generated index has the name of its foreign key. */
  function AfterFkey(g: Generated, name: string, columns: seq<string>, ts: TableState): Generated {
    if Served(ts, g, columns) then g else Tidied(g[name := columns], ts)
  }

  predicate NameTaken(s: Statement, g: Generated, ts: TableState) {
    s.AddForeignKey? && s.constraint.name in g && !Served(ts, g, s.constraint.def.columns)
  }

  predicate Accepts(s: Statement, g: Generated, ts: TableState) {
    Sane(ts, NextGenerated(s, g, ts)) && !NameTaken(s, g, ts)
  }

  function GeneratedAt(sv: Server, t: TableID): Generated {
    if t in sv.generated then sv.generated[t] else map[]
  }

  /** One statement, with the indexes of foreign keys. */
  ghost function Perform(s: Statement, sv: Server): Option<Server> {
    match Execute(s, sv.db)
    case None => None
    case Some(db) =>
      match TableChanged(s)
      case None => Some(sv.(db := db))
      case Some(t) =>
        var g := GeneratedAt(sv, t);
        if t in db.tables && Accepts(s, g, db.tables[t])
        then Some(Server(db, sv.generated[t := NextGenerated(s, g, db.tables[t])]))
        else None
  }

  ghost function PerformAll(ss: seq<Statement>, sv: Server): Option<Server> {
    if ss == [] then Some(sv)
    else
      match PerformAll(ss[..|ss| - 1], sv)
      case None => None
      case Some(mid) => Perform(ss[|ss| - 1], mid)
  }

  lemma {:induction false} PerformAllConcat(a: seq<Statement>, b: seq<Statement>, sv: Server)
    ensures PerformAll(a + b, sv) ==
            match PerformAll(a, sv) case None => None case Some(mid) => PerformAll(b, mid)
  {
    if b == [] {
      assert a + b == a;
    } else {
      PerformAllConcat(a, b[..|b| - 1], sv);
      assert (a + b)[..|a + b| - 1] == a + b[..|b| - 1];
    }
  }

  lemma PerformAllSnoc(ss: seq<Statement>, s: Statement, sv: Server)
    ensures PerformAll(ss + [s], sv) == match PerformAll(ss, sv) case None => None case Some(mid) => Perform(s, mid)
  {
    assert (ss + [s])[..|ss|] == ss;
  }

  /** What goes through here does so without the generated indexes, to the same tables. */
  lemma {:induction false} PerformExecutes(ss: seq<Statement>, sv: Server)
    ensures PerformAll(ss, sv).Some? ==> ExecuteAll(ss, sv.db) == Some(PerformAll(ss, sv).value.db)
  {
    if ss == [] {
    } else {
      PerformExecutes(ss[..|ss| - 1], sv);
    }
  }

  /** Statements about no table in particular. */
  predicate Untouching(ss: seq<Statement>) {
    ss == [] || (Untouching(ss[..|ss| - 1]) && TableChanged(ss[|ss| - 1]) == None)
  }

  lemma {:induction false} UntouchingRuns(ss: seq<Statement>, sv: Server)
    requires Untouching(ss) && ExecuteAll(ss, sv.db).Some?
    ensures PerformAll(ss, sv) == Some(sv.(db := ExecuteAll(ss, sv.db).value))
  {
    if ss == [] {
    } else {
      UntouchingRuns(ss[..|ss| - 1], sv);
    }
  }

  // ----- what is served -----

  lemma TidiedServes(g: Generated, ts: TableState, columns: seq<string>)
    ensures Served(ts, Tidied(g, ts), columns) <==> Served(ts, g, columns)
  {
    if n :| n in g && columns <= g[n] {
      Longest(g, ts, columns, n, Bound(g));
    }
  }

  ghost function Bound(g: Generated): (b: nat)
    ensures forall n :: n in g ==> |g[n]| <= b
  {
    if g == map[] then 0
    else
      var n :| n in g;
      var rest := Bound(g - {n});
      assert forall m :: m in g && m != n ==> m in g - {n} && (g - {n})[m] == g[m];
      if |g[n]| > rest then |g[n]| else rest
  }

  /** If a redundant index serves the columns, then so does one that is not. */
  lemma {:induction false} Longest(g: Generated, ts: TableState, columns: seq<string>, n: string, b: nat)
    requires n in g && columns <= g[n] && forall m :: m in g ==> |g[m]| <= b
    ensures Served(ts, Tidied(g, ts), columns)
    decreases b - |g[n]|
  {
    if Serves(ts, g[n]) {
      ServesShorter(ts, g[n], columns);
    } else if Longer(g, n) {
      var m :| m in g && g[n] < g[m];
      Longest(g, ts, columns, m, b);
    } else {
      assert n in Tidied(g, ts);
    }
  }

  lemma ServesShorter(ts: TableState, columns: seq<string>, shorter: seq<string>)
    requires Serves(ts, columns) && shorter <= columns
    ensures Serves(ts, shorter)
  {
    if n :| n in ts.constraints && IsKeyDef(ts.constraints[n]) && columns <= ts.constraints[n].columns {
      assert shorter <= ts.constraints[n].columns;
    } else {
      var n :| n in ts.indexes && columns <= ts.indexes[n].columns;
      assert shorter <= ts.indexes[n].columns;
    }
  }

  lemma ServedShorter(ts: TableState, g: Generated, columns: seq<string>, shorter: seq<string>)
    requires Served(ts, g, columns) && shorter <= columns
    ensures Served(ts, g, shorter)
  {
    if Serves(ts, columns) {
      ServesShorter(ts, columns, shorter);
    } else {
      var n :| n in g && columns <= g[n];
      assert shorter <= g[n];
    }
  }

  /** A foreign key is served once it is added, and nothing else changes as to what is. */
  lemma FkeyServes(g: Generated, name: string, added: seq<string>, ts: TableState, columns: seq<string>)
    requires name in g ==> Served(ts, g, added)
    ensures Served(ts, AfterFkey(g, name, added, ts), columns) <==> Served(ts, g, columns) || columns <= added
  {
    if Served(ts, g, added) {
      if columns <= added {
        ServedShorter(ts, g, added, columns);
      }
    } else {
      var more := g[name := added];
      TidiedServes(more, ts, columns);
      if n :| n in g && columns <= g[n] {
        assert n in more && more[n] == g[n];
      }
      if columns <= added {
        assert more[name] == added;
      }
    }
  }

  predicate HasKeyNamed(ts: TableState, n: string) {
    n in ts.constraints && IsKeyDef(ts.constraints[n])
  }

  /** Only keys and indexes matter. */
  ghost predicate SameServing(a: TableState, b: TableState) {
    && a.indexes == b.indexes
    && forall n :: HasKeyNamed(a, n) || HasKeyNamed(b, n) ==>
         n in a.constraints && n in b.constraints && a.constraints[n] == b.constraints[n]
  }

  lemma SameServed(a: TableState, b: TableState, g: Generated, columns: seq<string>)
    requires SameServing(a, b)
    ensures Serves(a, columns) <==> Serves(b, columns)
    ensures Served(a, g, columns) <==> Served(b, g, columns)
  {
    if n :| n in a.constraints && IsKeyDef(a.constraints[n]) && columns <= a.constraints[n].columns {
      assert n in b.constraints && IsKeyDef(b.constraints[n]);
    }
    if n :| n in b.constraints && IsKeyDef(b.constraints[n]) && columns <= b.constraints[n].columns {
      assert n in a.constraints && IsKeyDef(a.constraints[n]);
    }
  }

  lemma SameTidied(a: TableState, b: TableState, g: Generated)
    requires SameServing(a, b)
    ensures Tidied(g, a) == Tidied(g, b)
  {
    forall n | n in g ensures Serves(a, g[n]) <==> Serves(b, g[n]) {
      SameServed(a, b, g, g[n]);
    }
  }

  lemma SameApart(a: TableState, b: TableState, g: Generated)
    requires SameServing(a, b)
    ensures NamesApart(a, g) <==> NamesApart(b, g)
  {
  }
}
