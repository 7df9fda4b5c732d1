/** A whole MySQL migration, from two catalogs to the statements, and what it does to a server. */
module MySqlMigrate {
  import opened Common
  import opened Catalogs
  import opened MySqlDatabase
  import opened MySqlPlan
  import opened MySqlSql
  import opened MySqlPlanItems
  import opened MySqlCorrect
  import opened MySqlKeeps
  import opened MySqlAdds
  import opened MySqlServer
  import opened MySqlServerRuns
  import opened MySqlServerCorrect

  /** On each server that src describes, the statements go through exactly if the plan fits, and then lead to dest. */
  ghost predicate ReachesAll(src: Catalog, dest: Catalog, sql: seq<MySqlDatabase.Statement>) {
    forall sv :: Describes(src, sv) ==>
      var after := PerformAll(sql, sv);
      && (after.Some? <==> PlanFits(src, dest, sv))
      && (after.Some? ==> Reached(src, dest, after.value.db) && SaneServer(after.value))
  }

  /** On each server, nothing is lost if they go through. */
  ghost predicate KeepsAll(src: Catalog, dest: Catalog, sql: seq<MySqlDatabase.Statement>) {
    forall sv :: PerformAll(sql, sv).Some? ==> Keeping(src, dest, sv.db, PerformAll(sql, sv).value.db)
  }

  /** On each server that src describes, they leave what src has and what dest has if they go through. */
  ghost predicate GrowsAll(src: Catalog, dest: Catalog, sql: seq<MySqlDatabase.Statement>) {
    forall sv :: Describes(src, sv) && PerformAll(sql, sv).Some? ==> Grown(src, dest, PerformAll(sql, sv).value.db)
  }

  lemma PlanReachesAll(src: Catalog, dest: Catalog)
    requires Consistent(src) && Consistent(dest) && Agree(src, dest)
    ensures ReachesAll(src, dest, Statements(Plan(src, dest, true)))
  {
    forall sv | Describes(src, sv)
      ensures var after := PerformAll(Statements(Plan(src, dest, true)), sv);
        && (after.Some? <==> PlanFits(src, dest, sv))
        && (after.Some? ==> Reached(src, dest, after.value.db) && SaneServer(after.value))
    {
      MigrationReachesExactly(src, dest, sv);
    }
  }

  lemma PlanKeepsAll(src: Catalog, dest: Catalog)
    requires PlainCatalog(src) && PlainCatalog(dest)
    ensures KeepsAll(src, dest, Statements(Plan(src, dest, false)))
  {
    var sql := Statements(Plan(src, dest, false));
    forall sv | PerformAll(sql, sv).Some? ensures Keeping(src, dest, sv.db, PerformAll(sql, sv).value.db) {
      PerformExecutes(sql, sv);
      NothingIsLost(src, dest, sv.db);
    }
  }

  lemma PlanGrowsAll(src: Catalog, dest: Catalog)
    requires Consistent(src) && Consistent(dest) && Agree(src, dest)
    ensures GrowsAll(src, dest, Statements(Plan(src, dest, false)))
  {
    var sql := Statements(Plan(src, dest, false));
    forall sv | Describes(src, sv) && PerformAll(sql, sv).Some?
      ensures Grown(src, dest, PerformAll(sql, sv).value.db)
    {
      PerformExecutes(sql, sv);
      MigrationGrows(src, dest);
    }
  }

  /** With drops, the statements take the servers of src to dest, exactly as far as the plan fits; without, they lose
      nothing on any server, and add to the servers of src all that dest has. */
  method Migrate(src: Catalog, dest: Catalog, dropObjects: bool) returns (sql: seq<MySqlDatabase.Statement>)
    ensures dropObjects && Consistent(src) && Consistent(dest) && Agree(src, dest) ==> ReachesAll(src, dest, sql)
    ensures !dropObjects && PlainCatalog(src) && PlainCatalog(dest) ==> KeepsAll(src, dest, sql)
    ensures !dropObjects && Consistent(src) && Consistent(dest) && Agree(src, dest) ==> GrowsAll(src, dest, sql)
  {
    var m := NewMigration(src, dest, dropObjects);
    sql := Sql(m);
    if dropObjects && Consistent(src) && Consistent(dest) && Agree(src, dest) {
      PlanReachesAll(src, dest);
    }
    if !dropObjects && PlainCatalog(src) && PlainCatalog(dest) {
      PlanKeepsAll(src, dest);
    }
    if !dropObjects && Consistent(src) && Consistent(dest) && Agree(src, dest) {
      PlanGrowsAll(src, dest);
    }
  }
}
