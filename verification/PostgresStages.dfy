/** Changes to Postgres tables that are made in stages, so that no lock is held for long: the statements
    in stages, and the direct ones that they stand for. */
module PostgresStages {
  import opened Common
  import Catalogs
  import opened PostgresTables

  /** A column of a catalog, with type and default in normalized form. */
  datatype ColumnDef = ColumnDef(
    columnType: string,
    collation: string,
    default: string,
    isLiteral: bool,
    isNotNull: bool,
    isPrimaryKey: bool,
    identity: string)

  type CatalogColumn = Catalogs.Object<ColumnDef>

  /** A column as it is and as it should be. */
  datatype ColumnPair = ColumnPair(name: string, src: ColumnDef, dest: ColumnDef)

  /** A key to be added. */
  datatype NewKey = NewKey(name: string, keyType: KeyType, columns: seq<string>, timing: Timing)

  /** What changes in a table that is there already. */
  datatype AlterTable = AlterTable(
    table: TableID,
    alterColumns: seq<ColumnPair>,
    validateNotNull: seq<string>,
    createIndexes: seq<(string, Index)>,
    addKeys: seq<NewKey>)

  /** A foreign key to be added. */
  datatype NewForeignKey = NewForeignKey(table: TableID, name: string, reference: Reference)

  // ----- what the planner lists -----

  function Collation(c: string): string {
    if c == "" then DEFAULT_COLLATION else c
  }

  predicate GainsIdentity(p: ColumnPair) {
    p.src.identity == "" && p.dest.identity != ""
  }

  predicate LosesIdentity(p: ColumnPair) {
    p.src.identity != "" && p.dest.identity == ""
  }

  predicate LosesNulls(p: ColumnPair) {
    !p.src.isNotNull && p.dest.isNotNull
  }

  predicate Different(p: ColumnPair) {
    || p.src.columnType != p.dest.columnType || p.src.default != p.dest.default
    || (p.src.isNotNull != p.dest.isNotNull && !p.dest.isPrimaryKey)
    || GainsIdentity(p) || LosesIdentity(p) || Collation(p.src.collation) != Collation(p.dest.collation)
  }

  function Pairs(src: seq<CatalogColumn>, dest: seq<CatalogColumn>): seq<ColumnPair> {
    if dest == [] then []
    else
      var d := dest[|dest| - 1];
      Pairs(src, dest[..|dest| - 1])
      + match Catalogs.Find(src, d.name)
        case None => []
        case Some(s) =>
          var p := ColumnPair(d.name, s.def, d.def);
          if !d.ignore && Different(p) then [p] else []
  }

  /** The planner's filter: from version 12 on, columns that lose their nulls are validated. */
  function Validated(version: nat, ps: seq<ColumnPair>): seq<string>
    decreases |ps|
  {
    if ps == [] then []
    else (if LosesNulls(ps[0]) && version >= 12 then [ps[0].name] else []) + Validated(version, ps[1..])
  }

  method CompareColumns(version: nat, src: seq<CatalogColumn>, dest: seq<CatalogColumn>)
    returns (alterColumns: seq<ColumnPair>, validateNotNull: seq<string>)
    ensures alterColumns == Pairs(src, dest)
    ensures forall p :: p in alterColumns ==> Different(p)
    ensures validateNotNull == Validated(version, alterColumns)
  {
    alterColumns, validateNotNull := [], [];
    for k := 0 to |dest|
      invariant alterColumns == Pairs(src, dest[..k]) && validateNotNull == Validated(version, alterColumns)
      invariant forall p :: p in alterColumns ==> Different(p)
    {
      var d := dest[k];
      assert dest[..k + 1][..k] == dest[..k];
      if d.ignore {
        continue;
      }
      match Catalogs.Find(src, d.name) {
        case None =>
        case Some(s) =>
          var p := ColumnPair(d.name, s.def, d.def);
          if Different(p) {
            ValidatedSnoc(version, alterColumns, p);
            alterColumns := alterColumns + [p];
            if !p.src.isNotNull && p.dest.isNotNull && version >= 12 {
              validateNotNull := validateNotNull + [p.name];
            }
          }
      }
    }
    assert dest[..|dest|] == dest;
  }

  lemma {:induction false} ValidatedSnoc(version: nat, ps: seq<ColumnPair>, p: ColumnPair)
    ensures Validated(version, ps + [p])
         == Validated(version, ps) + if LosesNulls(p) && version >= 12 then [p.name] else []
    decreases |ps|
  {
    if ps == [] {
      assert [] + [p] == [p] && [p][1..] == [];
    } else {
      assert (ps + [p])[1..] == ps[1..] + [p];
      ValidatedSnoc(version, ps[1..], p);
    }
  }

  // ----- changes to columns -----

  /** The bytes that a character takes in UTF-8. */
  function Width(c: char): nat {
    if c < '\U{80}' then 1 else if c < '\U{800}' then 2 else if c < '\U{10000}' then 3 else 4
  }

  function Bytes(s: string): nat {
    if s == "" then 0 else Width(s[0]) + Bytes(s[1..])
  }

  /** The characters that fit in so many bytes. */
  function CutTo(s: string, limit: nat): string {
    if s == "" || Width(s[0]) > limit then "" else [s[0]] + CutTo(s[1..], limit - Width(s[0]))
  }

  /** Postgres keeps no more than 63 bytes of a name. */
  function Cut(name: string): string {
    CutTo(name, 63)
  }

  function CheckName(table: TableID, column: string): string {
    Cut(table.name + "_" + column + "_not_null_check")
  }

  function TypeChange(p: ColumnPair): seq<Change> {
    if p.src.columnType != p.dest.columnType then
      [SetType(p.dest.columnType, if Collation(p.dest.collation) != DEFAULT_COLLATION then Some(p.dest.collation)
          else None)]
    else if Collation(p.src.collation) != Collation(p.dest.collation) then
      [SetType(p.dest.columnType, Some(p.dest.collation))]
    else
      []
  }

  function DefaultChange(p: ColumnPair): seq<Change> {
    var s, d := p.src.default, p.dest.default;
    if s != "" && d == "" then [Change.DropDefault]
    else if (s == "" && d != "") || (p.src.isLiteral && p.dest.isLiteral && s != d) then [Change.SetDefault(d)]
    else []
  }

  function IdentityChange(p: ColumnPair): seq<Change> {
    if LosesIdentity(p) then [DropIdentity] else if GainsIdentity(p) then [AddIdentity] else []
  }

  function Alters(column: string, changes: seq<Change>): seq<Edit> {
    seq(|changes|, i requires 0 <= i < |changes| => AlterColumn(column, changes[i]))
  }

  /** The writer's filter: before version 12, and directly, NOT NULL is set at once. */
  function NullEdits(checks: bool, table: TableID, p: ColumnPair): seq<Edit> {
    if p.src.isNotNull && !p.dest.isNotNull then [AlterColumn(p.name, DropNotNull)]
    else if !LosesNulls(p) then []
    else if checks then [AddNotNullCheck(CheckName(table, p.name), p.name)]
    else [SetNotNull(p.name)]
  }

  function PairEdits(checks: bool, table: TableID, p: ColumnPair): seq<Edit> {
    Alters(p.name, TypeChange(p) + DefaultChange(p)) + (NullEdits(checks, table, p) + Alters(p.name, IdentityChange(p)))
  }

  function ColumnEdits(checks: bool, table: TableID, ps: seq<ColumnPair>): seq<Edit>
    decreases |ps|
  {
    if ps == [] then [] else PairEdits(checks, table, ps[0]) + ColumnEdits(checks, table, ps[1..])
  }

  function ValidateChecks(table: TableID, cs: seq<string>): seq<Edit>
    decreases |cs|
  {
    if cs == [] then []
    else
      var n := CheckName(table, cs[0]);
      [ValidateCheck(n), SetNotNull(cs[0]), DropConstraint(n)] + ValidateChecks(table, cs[1..])
  }

  // ----- indexes and keys -----

  function CreateIndexes(xs: seq<(string, Index)>): seq<Edit>
    decreases |xs|
  {
    if xs == [] then [] else [CreateIndex(xs[0].0, xs[0].1)] + CreateIndexes(xs[1..])
  }

  function KeysThroughIndexes(ks: seq<NewKey>): seq<Edit>
    decreases |ks|
  {
    if ks == [] then []
    else
      [CreateIndex(ks[0].name, Index(true, ks[0].columns)), AddKeyUsingIndex(ks[0].name, ks[0].keyType)]
      + KeysThroughIndexes(ks[1..])
  }

  function AddKeys(ks: seq<NewKey>): seq<Edit>
    decreases |ks|
  {
    if ks == [] then [] else [AddKey(ks[0].name, ks[0].keyType, ks[0].columns, ks[0].timing)] + AddKeys(ks[1..])
  }

  // ----- a table -----

  function InStages(version: nat, a: AlterTable): seq<Edit> {
    ColumnEdits(version >= 12, a.table, a.alterColumns) + ValidateChecks(a.table, a.validateNotNull)
    + CreateIndexes(a.createIndexes) + KeysThroughIndexes(a.addKeys)
  }

  function Directly(a: AlterTable): seq<Edit> {
    ColumnEdits(false, a.table, a.alterColumns) + CreateIndexes(a.createIndexes) + AddKeys(a.addKeys)
  }

  // ----- foreign keys -----

  /** The pair of tables of a foreign key. They change places if the schema or the table of the first one comes
      later. */
  function TablesID(fk: NewForeignKey): (TableID, TableID) {
    if Later(fk.table.schema, fk.reference.table.schema) || Later(fk.table.name, fk.reference.table.name)
    then (fk.reference.table, fk.table)
    else (fk.table, fk.reference.table)
  }

  /** The first string comes after the second one. */
  predicate Later(a: string, b: string) {
    if a == [] then false
    else if b == [] then true
    else if a[0] == b[0] then Later(a[1..], b[1..])
    else a[0] > b[0]
  }

  /** A foreign key joins the group of its pair of tables. */
  function Joined(groups: seq<seq<NewForeignKey>>, fk: NewForeignKey): seq<seq<NewForeignKey>> {
    match GroupOf(groups, TablesID(fk))
    case None => groups + [[fk]]
    case Some(i) => groups[i := groups[i] + [fk]]
  }

  function GroupOf(groups: seq<seq<NewForeignKey>>, tables: (TableID, TableID)): (r: Option<nat>)
    ensures r.Some? ==> r.value < |groups| && groups[r.value] != [] && TablesID(groups[r.value][0]) == tables
  {
    if groups == [] then None
    else
      var last := groups[|groups| - 1];
      if last != [] && TablesID(last[0]) == tables then Some(|groups| - 1) else GroupOf(groups[..|groups| - 1], tables)
  }

  function Grouped(fkeys: seq<NewForeignKey>): seq<seq<NewForeignKey>> {
    if fkeys == [] then [] else Joined(Grouped(fkeys[..|fkeys| - 1]), fkeys[|fkeys| - 1])
  }

  /** The statements of a group name the table of its first foreign key. */
  function GroupAdds(table: TableID, fkeys: seq<NewForeignKey>): seq<Statement>
    decreases |fkeys|
  {
    if fkeys == [] then []
    else [AddForeignKey(table, fkeys[0].name, fkeys[0].reference, false)] + GroupAdds(table, fkeys[1..])
  }

  function GroupValidates(table: TableID, fkeys: seq<NewForeignKey>): seq<Statement>
    decreases |fkeys|
  {
    if fkeys == [] then []
    else [ValidateForeignKey(table, fkeys[0].name)] + GroupValidates(table, fkeys[1..])
  }

  function GroupInStages(group: seq<NewForeignKey>): seq<Statement>
    requires group != []
  {
    GroupAdds(group[0].table, group) + GroupValidates(group[0].table, group)
  }

  /** Every foreign key on its own table. */
  function GroupDirectly(group: seq<NewForeignKey>): seq<Statement>
    decreases |group|
  {
    if group == [] then []
    else [AddForeignKey(group[0].table, group[0].name, group[0].reference, true)] + GroupDirectly(group[1..])
  }

  // ----- a migration -----

  ghost predicate NonEmpty(groups: seq<seq<NewForeignKey>>) {
    forall i :: 0 <= i < |groups| ==> groups[i] != []
  }

  function AltersInStages(version: nat, alters: seq<AlterTable>): seq<Statement>
    decreases |alters|
  {
    if alters == [] then []
    else OnTables(alters[0].table, InStages(version, alters[0])) + AltersInStages(version, alters[1..])
  }

  function AltersDirectly(alters: seq<AlterTable>): seq<Statement>
    decreases |alters|
  {
    if alters == [] then [] else OnTables(alters[0].table, Directly(alters[0])) + AltersDirectly(alters[1..])
  }

  function GroupsInStages(groups: seq<seq<NewForeignKey>>): seq<Statement>
    requires NonEmpty(groups)
    decreases |groups|
  {
    if groups == [] then [] else GroupInStages(groups[0]) + GroupsInStages(groups[1..])
  }

  function GroupsDirectly(groups: seq<seq<NewForeignKey>>): seq<Statement>
    decreases |groups|
  {
    if groups == [] then [] else GroupDirectly(groups[0]) + GroupsDirectly(groups[1..])
  }

  function InStagesAll(version: nat, alters: seq<AlterTable>, fkeys: seq<NewForeignKey>): seq<Statement>
    requires NonEmpty(Grouped(fkeys))
  {
    AltersInStages(version, alters) + GroupsInStages(Grouped(fkeys))
  }

  function DirectlyAll(alters: seq<AlterTable>, fkeys: seq<NewForeignKey>): seq<Statement> {
    AltersDirectly(alters) + GroupsDirectly(Grouped(fkeys))
  }

  lemma {:induction false} GroupsHaveMembers(fkeys: seq<NewForeignKey>)
    ensures NonEmpty(Grouped(fkeys))
  {
    if fkeys == [] {
    } else {
      GroupsHaveMembers(fkeys[..|fkeys| - 1]);
    }
  }

  // ----- as it runs -----

  /** Where the groups are: the position of a pair of tables is that of its group. */
  ghost predicate PositionsOf(pos: map<(TableID, TableID), nat>, groups: seq<seq<NewForeignKey>>) {
    forall tables {:trigger GroupOf(groups, tables)} ::
      (if tables in pos then Some(pos[tables]) else None) == GroupOf(groups, tables)
  }

  method GroupForeignKeys(fkeys: seq<NewForeignKey>) returns (groups: seq<seq<NewForeignKey>>)
    ensures groups == Grouped(fkeys)
  {
    groups := [];
    var pos: map<(TableID, TableID), nat> := map[];
    for k := 0 to |fkeys|
      invariant groups == Grouped(fkeys[..k]) && PositionsOf(pos, groups)
    {
      assert fkeys[..k + 1][..k] == fkeys[..k];
      var fk := fkeys[k];
      var tables := TablesID(fk);
      assert (if tables in pos then Some(pos[tables]) else None) == GroupOf(groups, tables);
      if tables in pos {
        JoinedPositions(pos, groups, fk);
        groups := groups[pos[tables] := groups[pos[tables]] + [fk]];
      } else {
        NewPosition(pos, groups, fk);
        groups := groups + [[fk]];
        pos := pos[tables := |groups| - 1];
      }
    }
    assert fkeys[..|fkeys|] == fkeys;
  }

  lemma {:induction false} GroupOfUpdate(groups: seq<seq<NewForeignKey>>, i: nat, fk: NewForeignKey,
                                         tables: (TableID, TableID))
    requires i < |groups| && groups[i] != []
    ensures GroupOf(groups[i := groups[i] + [fk]], tables) == GroupOf(groups, tables)
  {
    var after := groups[i := groups[i] + [fk]];
    if i < |groups| - 1 {
      assert after[..|groups| - 1] == groups[..|groups| - 1][i := groups[i] + [fk]];
      GroupOfUpdate(groups[..|groups| - 1], i, fk, tables);
    } else {
      assert after[..|groups| - 1] == groups[..|groups| - 1];
    }
  }

  lemma JoinedPositions(pos: map<(TableID, TableID), nat>, groups: seq<seq<NewForeignKey>>, fk: NewForeignKey)
    requires PositionsOf(pos, groups) && GroupOf(groups, TablesID(fk)).Some?
    ensures PositionsOf(pos, Joined(groups, fk))
  {
    forall tables ensures GroupOf(Joined(groups, fk), tables) == GroupOf(groups, tables) {
      GroupOfUpdate(groups, GroupOf(groups, TablesID(fk)).value, fk, tables);
    }
  }

  lemma NewPosition(pos: map<(TableID, TableID), nat>, groups: seq<seq<NewForeignKey>>, fk: NewForeignKey)
    requires PositionsOf(pos, groups) && GroupOf(groups, TablesID(fk)) == None
    ensures PositionsOf(pos[TablesID(fk) := |groups|], Joined(groups, fk))
  {
    assert Joined(groups, fk)[..|groups|] == groups;
  }
}
