/** The order in which a run completes scripts: that of the files it is given, repeatable ones last. */
module RunnerOrder {
  import opened Common
  import opened MigrationRunner
  import opened HistoryCommands
  import opened RunnerBatches
  import opened RunnerSafety

  /** The places that the migrations of a kind have among the files. */
  function Places(files: seq<string>, repeatable: bool): (places: seq<nat>)
    ensures forall p :: 0 <= p < |places| ==> places[p] < |files|
  {
    if files == [] then []
    else
      var f := files[|files| - 1];
      Places(files[..|files| - 1], repeatable)
      + (if IsMigration(f) && IsRepeatable(f) == repeatable then [|files| - 1] else [])
  }

  /** Some names are those of files at some places, of which each is to be run before the next ones. */
  ghost predicate InOrder(files: seq<string>, places: seq<nat>, names: seq<string>) {
    && |places| == |names|
    && (forall p :: 0 <= p < |places| ==>
          places[p] < |files| && IsMigration(files[places[p]]) && names[p] == files[places[p]])
    && forall p, q :: 0 <= p < q < |places| ==> Precedes(files, places[p], places[q])
  }

  lemma {:induction false} SelectIsAtPlaces(files: seq<string>, repeatable: bool)
    ensures var places, names := Places(files, repeatable), Select(files, repeatable);
      && |places| == |names|
      && (forall p :: 0 <= p < |places| ==>
            && IsMigration(files[places[p]]) && IsRepeatable(files[places[p]]) == repeatable
            && names[p] == files[places[p]])
      && forall p, q :: 0 <= p < q < |places| ==> places[p] < places[q]
  {
    if files == [] {
    } else {
      SelectIsAtPlaces(files[..|files| - 1], repeatable);
    }
  }

  lemma SortedIsInOrder(files: seq<string>)
    ensures InOrder(files, Places(files, false) + Places(files, true), SortAndFilter(files))
  {
    SelectIsAtPlaces(files, false);
    SelectIsAtPlaces(files, true);
  }

  /** Some of the names, in their order. */
  ghost predicate Picks(at: seq<nat>, names: seq<string>, some: seq<string>) {
    && |at| == |some| && (forall p :: 0 <= p < |at| ==> at[p] < |names| && some[p] == names[at[p]])
    && forall p, q :: 0 <= p < q < |at| ==> at[p] < at[q]
  }

  lemma {:induction false} PendingPicks(cfg: Config, scripts: seq<Script>) returns (at: seq<nat>)
    ensures Picks(at, Names(scripts), Names(Pending(cfg, scripts)))
  {
    if scripts == [] {
      return [];
    }
    var n := |scripts| - 1;
    at := PendingPicks(cfg, scripts[..n]);
    if Picked(cfg, scripts[n]).Some? {
      at := at + [n];
    }
  }

  lemma PicksInOrder(files: seq<string>, places: seq<nat>, names: seq<string>, at: seq<nat>, some: seq<string>, n: nat)
    requires InOrder(files, places, names) && Picks(at, names, some) && n <= |some|
    ensures var chosen := seq(n, p requires 0 <= p < n => places[at[p]]);
      InOrder(files, chosen, some[..n])
  {
  }

  /** What a run completes, wherever it stops. */
  ghost predicate CompletesInOrder(files: seq<string>, before: World, after: World) {
    exists places, done :: InOrder(files, places, done)
                           && Finished(after.effects) == Finished(before.effects) + done
  }

  lemma CompletedInOrder(cfg: Config, env: Env, w: World, files: seq<string>)
    requires Safe(cfg, env, SortAndFilter(files))
    ensures CompletesInOrder(files, w, Migrate(cfg, env, w, SortAndFilter(files)).world)
  {
    var sorted := SortAndFilter(files);
    var scripts := AllKnown(cfg, w.history, sorted);
    var after := Migrate(cfg, env, w, sorted).world;
    MigrateEnds(cfg, env, w, sorted);
    assert Names(scripts) == sorted;
    SortedIsInOrder(files);
    var at := PendingPicks(cfg, scripts);
    var pending := Pending(cfg, scripts);
    var n, k :| 0 <= n && 0 <= k && n + k <= |pending| && Progress(cfg, w, pending, n, k, after);
    PicksInOrder(files, Places(files, false) + Places(files, true), sorted, at, Names(pending), n);
  }

  // ----- which scripts complete -----

  /** A row says that the script has succeeded, and if it is repeatable, that it has not changed since. */
  predicate UpToDate(history: map<string, Row>, checksum: string -> string, f: string) {
    f in history && history[f].success
    && (IsRepeatable(f) ==> checksum(f) == if history[f].checksum.Some? then history[f].checksum.value else "")
  }

  lemma {:induction false} PendingExactly(cfg: Config, history: map<string, Row>, files: seq<string>, n: nat)
    requires n <= |files| && !cfg.skipHistory && Distinct(files)
    ensures forall f {:trigger f in Names(Pending(cfg, AllKnown(cfg, history, files)[..n]))} ::
              f in Names(Pending(cfg, AllKnown(cfg, history, files)[..n])) <==>
              f in files[..n] && !UpToDate(history, cfg.checksum, f)
  {
    var scripts := AllKnown(cfg, history, files);
    if n == 0 {
    } else {
      PendingExactly(cfg, history, files, n - 1);
      PendingNext(cfg, scripts, n - 1);
      var f := files[n - 1];
      assert f !in files[n..];
      assert files[..n] == files[..n - 1] + [f];
      var before := Pending(cfg, scripts[..n - 1]);
      if Picked(cfg, scripts[n - 1]).Some? {
        var m := Picked(cfg, scripts[n - 1]).value;
        NamesConcat(before, [m]);
        assert Names([m]) == [f];
      } else {
        assert Pending(cfg, scripts[..n]) == before;
      }
    }
  }

  /** A run that succeeds completes exactly the migrations among its files that are not up to date. */
  lemma RunCompletesExactly(cfg: Config, env: Env, w: World, files: seq<string>)
    requires !cfg.skipHistory && Distinct(files) && Safe(cfg, env, SortAndFilter(files))
    requires Migrate(cfg, env, w, SortAndFilter(files)).ok
    ensures exists done :: Finished(Migrate(cfg, env, w, SortAndFilter(files)).world.effects)
                           == Finished(w.effects) + done
                           && forall f :: f in done <==> f in files && IsMigration(f)
                                                         && !UpToDate(w.history, cfg.checksum, f)
  {
    var sorted := SortAndFilter(files);
    var scripts := AllKnown(cfg, w.history, sorted);
    var after := Migrate(cfg, env, w, sorted).world;
    SortAndFilterSorts(files);
    MigrateEnds(cfg, env, w, sorted);
    PendingExactly(cfg, w.history, sorted, |sorted|);
    assert scripts[..|sorted|] == scripts && sorted[..|sorted|] == sorted;
    var pending := Pending(cfg, scripts);
    var n, k :| 0 <= n && 0 <= k && n + k <= |pending| && Progress(cfg, w, pending, n, k, after) && n == |pending|;
    assert Names(pending)[..n] == Names(pending);
  }
}
