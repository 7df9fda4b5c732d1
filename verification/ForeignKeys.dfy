/** The part of a catalog that the subsetter walks: tables, their constraints, and
    the walks one can take along foreign keys in either direction. */
module ForeignKeys {

  import opened Common

  datatype ConstraintType = PrimaryKey | Unique | ForeignKey | Check | Exclude

  /** `address` stands for the identity of the constraint in memory: the code tells
      constraints apart by pointer, so two constraints with equal text stay distinct. */
  datatype Constraint = Constraint(
    address: nat,
    constraintType: ConstraintType,
    table: TableID,
    columns: seq<string>,
    references: TableID,
    referencesColumns: seq<string>)

  datatype Table = Table(id: TableID, constraints: seq<Constraint>)

  /** The tables of all schemas, in catalog order. */
  type Catalog = seq<Table>

  predicate HasTable(catalog: Catalog, id: TableID) {
    exists table :: table in catalog && table.id == id
  }

  /** The constraints of the named table, in order. */
  function ConstraintsOf(catalog: Catalog, id: TableID): seq<Constraint> {
    if catalog == [] then []
    else if catalog[|catalog| - 1].id == id then catalog[|catalog| - 1].constraints
    else ConstraintsOf(catalog[..|catalog| - 1], id)
  }

  /** The constraints of a list that are foreign keys to the named table. */
  function KeysInto(constraints: seq<Constraint>, id: TableID): seq<Constraint> {
    if constraints == [] then []
    else
      var last := constraints[|constraints| - 1];
      KeysInto(constraints[..|constraints| - 1], id)
      + (if last.constraintType == ForeignKey && last.references == id then [last] else [])
  }

  /** The foreign keys that reference the named table, in catalog order. */
  function ReferencedBy(catalog: Catalog, id: TableID): seq<Constraint> {
    if catalog == [] then []
    else ReferencedBy(catalog[..|catalog| - 1], id) + KeysInto(catalog[|catalog| - 1].constraints, id)
  }

  ghost predicate UniqueTables(catalog: Catalog) {
    forall i, j :: 0 <= i < j < |catalog| ==> catalog[i].id != catalog[j].id
  }

  /** Table names are unique, constraints know the table they sit in, and every
      foreign key references a table of the catalog, column for column. */
  ghost predicate Closed(catalog: Catalog) {
    && UniqueTables(catalog)
    && (forall table, c {:trigger table in catalog, c in table.constraints} ::
       table in catalog && c in table.constraints ==> c.table == table.id)
    && (forall table, c {:trigger table in catalog, c in table.constraints} ::
       table in catalog && c in table.constraints && c.constraintType == ForeignKey ==>
          HasTable(catalog, c.references) && |c.columns| == |c.referencesColumns|)
  }

  /** c is a foreign key of the catalog. */
  predicate IsForeignKey(catalog: Catalog, c: Constraint) {
    c.constraintType == ForeignKey && c in ConstraintsOf(catalog, c.table)
  }

  lemma {:induction false} ConstraintsOfMember(catalog: Catalog, id: TableID, c: Constraint)
    requires UniqueTables(catalog)
    ensures c in ConstraintsOf(catalog, id) <==>
            exists table :: table in catalog && table.id == id && c in table.constraints
  {
    if catalog == [] {
    } else {
      var init, last := catalog[..|catalog| - 1], catalog[|catalog| - 1];
      assert forall table :: table in catalog <==> table in init || table == last;
      if last.id == id {
        forall table | table in catalog && table.id == id ensures table == last {
          var i :| 0 <= i < |catalog| && catalog[i] == table;
        }
      } else {
        ConstraintsOfMember(init, id, c);
      }
    }
  }

  lemma {:induction false} KeysIntoMember(constraints: seq<Constraint>, id: TableID, c: Constraint)
    ensures c in KeysInto(constraints, id) <==>
            c in constraints && c.constraintType == ForeignKey && c.references == id
  {
    if constraints == [] {
    } else {
      KeysIntoMember(constraints[..|constraints| - 1], id, c);
      assert constraints == constraints[..|constraints| - 1] + [constraints[|constraints| - 1]];
    }
  }

  lemma {:induction false} ReferencedByMember(catalog: Catalog, id: TableID, c: Constraint)
    ensures c in ReferencedBy(catalog, id) <==>
            c.constraintType == ForeignKey && c.references == id
            && exists table :: table in catalog && c in table.constraints
  {
    if catalog == [] {
    } else {
      var init, last := catalog[..|catalog| - 1], catalog[|catalog| - 1];
      assert forall table :: table in catalog <==> table in init || table == last;
      ReferencedByMember(init, id, c);
      KeysIntoMember(last.constraints, id, c);
    }
  }

  // ----- the order of the keys into a table -----

  predicate IsKeyInto(c: Constraint, id: TableID) {
    c.constraintType == ForeignKey && c.references == id
  }

  /** How many of the first constraints are foreign keys to the table. */
  function CountInto(constraints: seq<Constraint>, id: TableID, n: nat): nat
    requires n <= |constraints|
  {
    if n == 0 then 0
    else CountInto(constraints, id, n - 1) + (if IsKeyInto(constraints[n - 1], id) then 1 else 0)
  }

  /** How many foreign keys to the table the first tables have. */
  function CountBefore(catalog: Catalog, id: TableID, n: nat): nat
    requires n <= |catalog|
  {
    if n == 0 then 0
    else CountBefore(catalog, id, n - 1) + CountInto(catalog[n - 1].constraints, id, |catalog[n - 1].constraints|)
  }

  lemma {:induction false} CountOfPrefix(constraints: seq<Constraint>, id: TableID, n: nat, m: nat)
    requires n <= m <= |constraints|
    ensures CountInto(constraints[..m], id, n) == CountInto(constraints, id, n)
  {
    if n > 0 {
      CountOfPrefix(constraints, id, n - 1, m);
    }
  }

  lemma {:induction false} KeysIntoAt(constraints: seq<Constraint>, id: TableID, k: nat)
    requires k < |constraints| && IsKeyInto(constraints[k], id)
    ensures |KeysInto(constraints, id)| == CountInto(constraints, id, |constraints|)
    ensures CountInto(constraints, id, k) < |KeysInto(constraints, id)|
    ensures KeysInto(constraints, id)[CountInto(constraints, id, k)] == constraints[k]
  {
    var n := |constraints| - 1;
    CountOfPrefix(constraints, id, n, n);
    CountOfPrefix(constraints, id, if k < n then k else n, n);
    if k < n {
      KeysIntoAt(constraints[..n], id, k);
    } else {
      KeysIntoCount(constraints[..n], id);
    }
  }

  lemma {:induction false} KeysIntoCount(constraints: seq<Constraint>, id: TableID)
    ensures |KeysInto(constraints, id)| == CountInto(constraints, id, |constraints|)
  {
    if constraints == [] {
    } else {
      KeysIntoCount(constraints[..|constraints| - 1], id);
      CountOfPrefix(constraints, id, |constraints| - 1, |constraints| - 1);
    }
  }

  lemma {:induction false} CountBeforeOfPrefix(catalog: Catalog, id: TableID, n: nat, m: nat)
    requires n <= m <= |catalog|
    ensures CountBefore(catalog[..m], id, n) == CountBefore(catalog, id, n)
  {
    if n > 0 {
      CountBeforeOfPrefix(catalog, id, n - 1, m);
    }
  }

  lemma {:induction false} ReferencedByCount(catalog: Catalog, id: TableID)
    ensures |ReferencedBy(catalog, id)| == CountBefore(catalog, id, |catalog|)
  {
    if catalog == [] {
    } else {
      var n := |catalog| - 1;
      ReferencedByCount(catalog[..n], id);
      CountBeforeOfPrefix(catalog, id, n, n);
      KeysIntoCount(catalog[n].constraints, id);
    }
  }

  /** A foreign key to the table comes behind those of earlier tables and those before it in its own. */
  lemma {:induction false} ReferencedByInOrder(catalog: Catalog, id: TableID, i: nat, k: nat)
    requires i < |catalog| && k < |catalog[i].constraints| && IsKeyInto(catalog[i].constraints[k], id)
    ensures var place := CountBefore(catalog, id, i) + CountInto(catalog[i].constraints, id, k);
      place < |ReferencedBy(catalog, id)| && ReferencedBy(catalog, id)[place] == catalog[i].constraints[k]
  {
    var n := |catalog| - 1;
    CountBeforeOfPrefix(catalog, id, i, n);
    if i < n {
      ReferencedByInOrder(catalog[..n], id, i, k);
    } else {
      ReferencedByCount(catalog[..n], id);
      KeysIntoAt(catalog[n].constraints, id, k);
    }
  }

  // ----- directions -----

  /** A foreign key is followed from the table that holds it to the table it
      references (Parentward), or back (Childward). */
  datatype Direction = Parentward | Childward

  function Tail(dir: Direction, c: Constraint): TableID {
    if dir.Parentward? then c.table else c.references
  }

  function Head(dir: Direction, c: Constraint): TableID {
    if dir.Parentward? then c.references else c.table
  }

  /** What a table contributes to the stack of constraints to visit. */
  function Outgoing(catalog: Catalog, dir: Direction, id: TableID): seq<Constraint> {
    if dir.Parentward? then ConstraintsOf(catalog, id) else ReferencedBy(catalog, id)
  }

  lemma OutgoingMember(catalog: Catalog, dir: Direction, id: TableID, c: Constraint)
    requires Closed(catalog)
    ensures c in Outgoing(catalog, dir, id) && c.constraintType == ForeignKey <==>
            IsForeignKey(catalog, c) && Tail(dir, c) == id
    ensures IsForeignKey(catalog, c) ==> HasTable(catalog, c.table) && HasTable(catalog, c.references)
  {
    ConstraintsOfMember(catalog, id, c);
    ConstraintsOfMember(catalog, c.table, c);
    ReferencedByMember(catalog, id, c);
  }

  // ----- walks -----

  /** w is a walk along foreign keys from one table to another that enters no blocked table. */
  ghost predicate Walk(catalog: Catalog, dir: Direction, blocked: set<TableID>,
                       source: TableID, w: seq<Constraint>, target: TableID)
  {
    if w == [] then source == target
    else
      var c := w[|w| - 1];
      && IsForeignKey(catalog, c) && Head(dir, c) == target && target !in blocked
      && Walk(catalog, dir, blocked, source, w[..|w| - 1], Tail(dir, c))
  }

  ghost predicate Reaches(catalog: Catalog, dir: Direction, blocked: set<TableID>, source: TableID, target: TableID) {
    exists w :: Walk(catalog, dir, blocked, source, w, target)
  }

  lemma WalkSnoc(catalog: Catalog, dir: Direction, blocked: set<TableID>,
                 source: TableID, w: seq<Constraint>, c: Constraint)
    requires IsForeignKey(catalog, c) && Walk(catalog, dir, blocked, source, w, Tail(dir, c))
    requires Head(dir, c) !in blocked
    ensures Walk(catalog, dir, blocked, source, w + [c], Head(dir, c))
  {
    assert (w + [c])[..|w + [c]| - 1] == w;
  }

  lemma {:induction false} WalkConcat(catalog: Catalog, dir: Direction, blocked: set<TableID>,
                    source: TableID, w: seq<Constraint>, mid: TableID, v: seq<Constraint>, target: TableID)
    requires Walk(catalog, dir, blocked, source, w, mid) && Walk(catalog, dir, blocked, mid, v, target)
    ensures Walk(catalog, dir, blocked, source, w + v, target)
  {
    if v == [] {
      assert w + v == w;
    } else {
      var c := v[|v| - 1];
      WalkConcat(catalog, dir, blocked, source, w, mid, v[..|v| - 1], Tail(dir, c));
      WalkSnoc(catalog, dir, blocked, source, w + v[..|v| - 1], c);
      assert w + v == w + v[..|v| - 1] + [c];
    }
  }

  lemma ReachesStep(catalog: Catalog, dir: Direction, blocked: set<TableID>, source: TableID, c: Constraint)
    requires Reaches(catalog, dir, blocked, source, Tail(dir, c)) && IsForeignKey(catalog, c)
    requires Head(dir, c) !in blocked
    ensures Reaches(catalog, dir, blocked, source, Head(dir, c))
  {
    var w :| Walk(catalog, dir, blocked, source, w, Tail(dir, c));
    WalkSnoc(catalog, dir, blocked, source, w, c);
  }

  lemma ReachesSelf(catalog: Catalog, dir: Direction, blocked: set<TableID>, source: TableID)
    ensures Reaches(catalog, dir, blocked, source, source)
  {
    assert Walk(catalog, dir, blocked, source, [], source);
  }
}
