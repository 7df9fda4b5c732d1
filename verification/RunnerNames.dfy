/** What the names of scripts decide: which files are migrations, which run in a transaction, which run alone, and which
    script undoes one that fails. */
module RunnerNames {
  import opened Common
  import opened MigrationRunner
  import opened HistoryCommands
  import opened RunnerBatches
  import opened RunnerSafety

  ghost predicate Ends(s: string, suffix: string) {
    exists p :: s == p + suffix
  }

  lemma SuffixExactly(s: string, suffix: string)
    ensures HasSuffix(s, suffix) <==> Ends(s, suffix)
  {
    if HasSuffix(s, suffix) {
      assert s == s[..|s| - |suffix|] + suffix;
    }
    if p :| s == p + suffix {
      assert s[|s| - |suffix|..] == suffix;
    }
  }

  lemma RepeatableExactly(f: string)
    ensures IsRepeatable(f) <==> exists p :: f == "repeatable/" + p
  {
    if IsRepeatable(f) {
      assert f == "repeatable/" + f[|"repeatable/"|..];
    }
    if p :| f == "repeatable/" + p {
      assert f[..|"repeatable/"|] == "repeatable/";
    }
  }

  /** The last element of the path. */
  ghost predicate Called(f: string, name: string) {
    f == name || Ends(f, "/" + name)
  }

  /** SQL files are migrations, but for undo scripts and what dump writes. */
  lemma MigrationExactly(f: string)
    ensures IsMigration(f) <==>
            && Ends(f, ".sql") && !Ends(f, ".undo.sql")
            && !Called(f, "schema.sql") && !Called(f, "indexes.sql") && !Called(f, "constraints.sql")
  {
    SuffixExactly(f, ".sql");
    SuffixExactly(f, ".undo.sql");
    SuffixExactly(f, "/schema.sql");
    SuffixExactly(f, "/indexes.sql");
    SuffixExactly(f, "/constraints.sql");
    assert "/" + "schema.sql" == "/schema.sql" && "/" + "indexes.sql" == "/indexes.sql"
        && "/" + "constraints.sql" == "/constraints.sql";
  }

  // ----- transactions -----

  /** A file that says so is run in a transaction, and so is every other one that does not say the opposite, except on
      MySQL. */
  ghost predicate InTransaction(cfg: Config, f: string) {
    Ends(f, ".tx.sql") || (!cfg.isMySql && !Ends(f, ".txoff.sql"))
  }

  lemma TransactionExactly(cfg: Config, batch: seq<Script>)
    requires batch != []
    ensures IsTx(cfg, batch) <==> |batch| > 1 || InTransaction(cfg, batch[0].filename)
  {
    SuffixExactly(batch[0].filename, ".tx.sql");
    SuffixExactly(batch[0].filename, ".txoff.sql");
  }

  /** A file that says anything about transactions is alone in its batch, and so is every file on MySQL. */
  lemma BatchesByName(cfg: Config, env: Env, w: World, files: seq<string>, b: nat, k: nat)
    requires Safe(cfg, env, files) && b < |Migrate(cfg, env, w, files).calls|
    requires k < |Migrate(cfg, env, w, files).calls[b]|
    requires cfg.isMySql || Ends(Migrate(cfg, env, w, files).calls[b][k].filename, ".tx.sql")
             || Ends(Migrate(cfg, env, w, files).calls[b][k].filename, ".txoff.sql")
    ensures |Migrate(cfg, env, w, files).calls[b]| == 1
  {
    MigrateEnds(cfg, env, w, files);
    var batch := Migrate(cfg, env, w, files).calls[b];
    assert GoodBatch(cfg, batch);
    SuffixExactly(batch[k].filename, ".tx.sql");
    SuffixExactly(batch[k].filename, ".txoff.sql");
  }

  /** Two batches that follow each other could not have been one. */
  lemma NextBatchByName(cfg: Config, env: Env, w: World, files: seq<string>, b: nat)
    requires Safe(cfg, env, files) && b + 1 < |Migrate(cfg, env, w, files).calls|
    ensures var x, y := Migrate(cfg, env, w, files).calls[b], Migrate(cfg, env, w, files).calls[b + 1];
      && x != [] && y != []
      && (cfg.isMySql || (exists m :: m in [x[|x| - 1], y[0]]
                                      && (Ends(m.filename, ".tx.sql") || Ends(m.filename, ".txoff.sql"))))
  {
    MigrateEnds(cfg, env, w, files);
    var x, y := Migrate(cfg, env, w, files).calls[b], Migrate(cfg, env, w, files).calls[b + 1];
    assert EndsBefore(cfg, x, y);
    SuffixExactly(x[|x| - 1].filename, ".tx.sql");
    SuffixExactly(x[|x| - 1].filename, ".txoff.sql");
    SuffixExactly(y[0].filename, ".tx.sql");
    SuffixExactly(y[0].filename, ".txoff.sql");
    assert x[|x| - 1] in [x[|x| - 1], y[0]] && y[0] in [x[|x| - 1], y[0]];
  }

  // ----- undo scripts -----

  lemma TrimmedSuffix(p: string, suffix: string)
    ensures TrimSuffix(p + suffix, suffix) == p
  {
    assert (p + suffix)[|p|..] == suffix && (p + suffix)[..|p|] == p;
  }

  /** The undo script has the name of the script. */
  lemma UndoFileExactly(p: string)
    ensures UndoFile(p + ".txoff.sql") == p + ".undo.sql"
    ensures !Ends(p, ".txoff") ==> UndoFile(p + ".sql") == p + ".undo.sql"
  {
    assert p + ".txoff.sql" == p + ".txoff" + ".sql";
    TrimmedSuffix(p + ".txoff", ".sql");
    TrimmedSuffix(p, ".txoff");
    TrimmedSuffix(p, ".sql");
    SuffixExactly(p, ".txoff");
  }

  /** One attempt at one script. */
  lemma OneScript(cfg: Config, env: Env, w: World, m: Script)
    requires env.open(w.step) == Fine
    ensures var r := RunScripts(cfg, env, w, [m], 0);
      && |r.batch| == 1 && r.batch[0].filename == m.filename && r.batch[0].started
      && (env.exec(w.step + 1) != Fine ==>
            r.result.Failure? && r.world == World(w.effects + [Partial(m.filename)], w.history, w.step + 2))
      && (env.exec(w.step + 1) == Fine ==> r.world.effects == w.effects + [Done(m.filename)])
      && (r.result.Failure? ==> r.result.stoppedAt == 0 && r.world.history == w.history)
  {
    RunScriptsStops(cfg, env, w, [m], 0);
    var next := [m][0 := m.(started := true, success := env.exec(w.step + 1) == Fine)];
    assert |next| == 1 && next[0].started;
    forall v ensures RunScripts(cfg, env, v, next, 1) == Ran(v, next, Success) {
    }
  }

  /** Without lock timeouts there is one attempt. */
  lemma OneAttempt(cfg: Config, env: Env, w: World, batch: seq<Script>, isRetryable: bool)
    requires batch != [] && !cfg.knowsTimeouts
    ensures var r, t := Run(cfg, env, w, batch), Retry(cfg, env, w, batch, 0, isRetryable);
      && -1 <= (if r.result.Failure? then r.result.stoppedAt else 0) < |r.batch| && r.batch != []
      && (t.finish == Completed <==> r.result.Success?)
      && (r.result.Failure? ==> t.world == GiveUp(cfg, env, r.world, r.batch, r.result.stoppedAt, isRetryable))
  {
    RunStops(cfg, env, w, batch);
  }

  /** What is left of a script that fails and is not tried again: nothing if it was in a transaction. If it was not, and
      is more than one statement, its undo script is run, if it has one. */
  ghost predicate LeftByFailure(cfg: Config, env: Env, w: World, f: string, after: World) {
    if InTransaction(cfg, f) then after.effects == w.effects
    else if cfg.isStatement(f) || !cfg.hasUndo(UndoFile(f)) then FailedEffects(env, w, f) == after.effects
    else
      || after.effects == FailedEffects(env, w, f) + [Undone(UndoFile(f))]
      || after.effects == FailedEffects(env, w, f) + [Partial(UndoFile(f))]
  }

  /** A script that has run to its end can still fail to be recorded. */
  function FailedEffects(env: Env, w: World, f: string): seq<Effect> {
    w.effects + [if env.exec(w.step + 2) == Fine then Done(f) else Partial(f)]
  }

  lemma FailureIsUndone(cfg: Config, env: Env, w: World, m: Script)
    requires !cfg.knowsTimeouts && forall n :: env.open(n) == Fine
    requires RunWithRetry(cfg, env, w, [m]).finish != Completed
    ensures LeftByFailure(cfg, env, w, m.filename, RunWithRetry(cfg, env, w, [m]).world)
  {
    TransactionExactly(cfg, [m]);
    if IsTx(cfg, [m]) {
      RolledBack(cfg, env, w, m);
    } else {
      LeftOutside(cfg, env, w, m);
    }
  }

  lemma RolledBack(cfg: Config, env: Env, w: World, m: Script)
    requires !cfg.knowsTimeouts && env.open(w.step + 1) == Fine && IsTx(cfg, [m])
    requires RunWithRetry(cfg, env, w, [m]).finish != Completed
    ensures RunWithRetry(cfg, env, w, [m]).world.effects == w.effects
  {
    OneAttempt(cfg, env, w, [m], true);
    OneScript(cfg, env, Tick(w), m);
  }

  /** The first attempt outside a transaction. */
  lemma OutsideFails(cfg: Config, env: Env, w: World, m: Script)
    requires !cfg.knowsTimeouts && env.open(w.step) == Fine && env.open(w.step + 1) == Fine && !IsTx(cfg, [m])
    ensures var r, t := RunScripts(cfg, env, Tick(w), [m], 0), RunWithRetry(cfg, env, w, [m]);
      && |r.batch| == 1
      && (t.finish != Completed <==> r.result.Failure?)
      && (r.result.Failure? ==> t.world == GiveUp(cfg, env, r.world, r.batch, 0, cfg.isStatement(m.filename)))
  {
    OneScript(cfg, env, Tick(w), m);
    assert Run(cfg, env, Tick(w), [m]) == RunScripts(cfg, env, Tick(w), [m], 0);
    OneAttempt(cfg, env, Tick(w), [m], cfg.isStatement(m.filename));
    assert RunWithRetry(cfg, env, w, [m]) == Retry(cfg, env, Tick(w), [m], 0, cfg.isStatement(m.filename));
  }

  lemma GivesUpOne(cfg: Config, env: Env, w: World, batch: seq<Script>, isRetryable: bool)
    requires |batch| == 1
    ensures GiveUp(cfg, env, w, batch, 0, isRetryable).effects
         == (if isRetryable then w else Undo(cfg, env, w, batch[0].filename)).effects
  {
  }

  lemma LeftOutside(cfg: Config, env: Env, w: World, m: Script)
    requires !cfg.knowsTimeouts && (forall n :: env.open(n) == Fine) && !IsTx(cfg, [m])
    requires RunWithRetry(cfg, env, w, [m]).finish != Completed
    ensures var after, f := RunWithRetry(cfg, env, w, [m]).world, m.filename;
      if cfg.isStatement(f) || !cfg.hasUndo(UndoFile(f)) then FailedEffects(env, w, f) == after.effects
      else
        || after.effects == FailedEffects(env, w, f) + [Undone(UndoFile(f))]
        || after.effects == FailedEffects(env, w, f) + [Partial(UndoFile(f))]
  {
    OutsideFails(cfg, env, w, m);
    GivenUpLeaves(cfg, env, w, m);
  }

  /** What is done after it. */
  lemma GivenUpLeaves(cfg: Config, env: Env, w: World, m: Script)
    requires forall n :: env.open(n) == Fine
    ensures var r, f := RunScripts(cfg, env, Tick(w), [m], 0), m.filename;
      r.result.Failure? ==>
        && |r.batch| == 1
        && var after := GiveUp(cfg, env, r.world, r.batch, 0, cfg.isStatement(f)).effects;
           if cfg.isStatement(f) || !cfg.hasUndo(UndoFile(f)) then after == FailedEffects(env, w, f)
           else after == FailedEffects(env, w, f) + [Undone(UndoFile(f))]
                || after == FailedEffects(env, w, f) + [Partial(UndoFile(f))]
  {
    OneScript(cfg, env, Tick(w), m);
    var r := RunScripts(cfg, env, Tick(w), [m], 0);
    if r.result.Failure? {
      GivesUpOne(cfg, env, r.world, r.batch, cfg.isStatement(m.filename));
      UndoLeaves(cfg, env, r.world, m.filename);
    }
  }

  lemma UndoLeaves(cfg: Config, env: Env, w: World, f: string)
    requires env.open(w.step) == Fine
    ensures var after := Undo(cfg, env, w, f);
      if !cfg.hasUndo(UndoFile(f)) then after.effects == w.effects
      else after.effects
           == w.effects + [if env.exec(w.step + 1) == Fine then Undone(UndoFile(f)) else Partial(UndoFile(f))]
  {
  }

  /** If the script fails and its undo script runs, that is all that is done. */
  lemma UndoIsRun(cfg: Config, env: Env, w: World, m: Script)
    requires !InTransaction(cfg, m.filename) && !cfg.isStatement(m.filename) && cfg.hasUndo(UndoFile(m.filename))
    requires !cfg.knowsTimeouts && forall n :: env.open(n) == Fine
    requires env.exec(w.step + 2) != Fine && env.exec(w.step + 4) == Fine
    ensures RunWithRetry(cfg, env, w, [m]).world.effects
         == w.effects + [Partial(m.filename)] + [Undone(UndoFile(m.filename))]
  {
    TransactionExactly(cfg, [m]);
    UndoRuns(cfg, env, w, m);
  }

  lemma UndoRuns(cfg: Config, env: Env, w: World, m: Script)
    requires !IsTx(cfg, [m]) && !cfg.isStatement(m.filename) && cfg.hasUndo(UndoFile(m.filename))
    requires !cfg.knowsTimeouts && env.open(w.step) == Fine && env.open(w.step + 1) == Fine
    requires env.open(w.step + 3) == Fine && env.exec(w.step + 2) != Fine && env.exec(w.step + 4) == Fine
    ensures RunWithRetry(cfg, env, w, [m]).world.effects
         == w.effects + [Partial(m.filename)] + [Undone(UndoFile(m.filename))]
  {
    OutsideFails(cfg, env, w, m);
    FailsThenUndone(cfg, env, Tick(w), m);
  }

  lemma FailsThenUndone(cfg: Config, env: Env, w: World, m: Script)
    requires cfg.hasUndo(UndoFile(m.filename)) && env.open(w.step) == Fine && env.exec(w.step + 1) != Fine
    requires env.open(w.step + 2) == Fine && env.exec(w.step + 3) == Fine
    ensures var r := RunScripts(cfg, env, w, [m], 0);
      && r.result.Failure? && |r.batch| == 1
      && GiveUp(cfg, env, r.world, r.batch, 0, false).effects
         == w.effects + [Partial(m.filename)] + [Undone(UndoFile(m.filename))]
  {
    OneScript(cfg, env, w, m);
    var r := RunScripts(cfg, env, w, [m], 0);
    UndoneAfter(cfg, env, r.world, m.filename);
    GivesUpOne(cfg, env, r.world, r.batch, false);
  }

  lemma UndoneAfter(cfg: Config, env: Env, w: World, f: string)
    requires cfg.hasUndo(UndoFile(f)) && env.open(w.step) == Fine && env.exec(w.step + 1) == Fine
    ensures Undo(cfg, env, w, f).effects == w.effects + [Undone(UndoFile(f))]
  {
  }

  // ----- lock timeouts -----

  /** Once everything goes well, a batch completes at the next attempt. */
  lemma AttemptCompletes(cfg: Config, env: Env, w: World, m: Script, attempts: nat, isRetryable: bool)
    requires forall n :: n >= w.step ==> env.open(n) == Fine && env.begin(n) == Fine && env.exec(n) == Fine
                                         && env.write(n) == Fine && env.commit(n) == Fine
    ensures var t := Retry(cfg, env, w, [m], attempts, isRetryable);
      t.finish == Completed && t.attempts == attempts + 1 && t.world.effects == w.effects + [Done(m.filename)]
  {
    AllIsFine(cfg, env, w, m);
    AllIsFine(cfg, env, Tick(w), m);
  }

  lemma AllIsFine(cfg: Config, env: Env, w: World, m: Script)
    requires forall n :: n >= w.step ==> env.open(n) == Fine && env.exec(n) == Fine && env.write(n) == Fine
    ensures var r := RunScripts(cfg, env, w, [m], 0);
      r.result == Success && r.world.effects == w.effects + [Done(m.filename)] && r.world.step >= w.step
  {
    OneScript(cfg, env, w, m);
    var next := [m][0 := m.(started := true, success := true)];
    forall v ensures RunScripts(cfg, env, v, next, 1) == Ran(v, next, Success) {
    }
  }

  /** A script in a transaction whose statements run into a lock timeout is tried again; if they fail for another
      reason, it is not. */
  lemma TimeoutIsRetried(cfg: Config, env: Env, w: World, m: Script)
    requires InTransaction(cfg, m.filename) && cfg.knowsTimeouts && cfg.maxAttempts >= 2
    requires env.begin(w.step) == Fine && env.open(w.step + 1) == Fine && env.exec(w.step + 2) != Fine
    requires forall n :: n > w.step + 2 ==> env.open(n) == Fine && env.begin(n) == Fine && env.exec(n) == Fine
                                            && env.write(n) == Fine && env.commit(n) == Fine
    ensures var t := RunWithRetry(cfg, env, w, [m]);
      if env.exec(w.step + 2) == TimesOut
      then t.finish == Completed && t.attempts == 2 && t.world.effects == w.effects + [Done(m.filename)]
      else t.finish == Stopped && t.attempts == 1 && t.world.effects == w.effects
  {
    TransactionExactly(cfg, [m]);
    OneScript(cfg, env, Tick(w), m);
    var r := Run(cfg, env, w, [m]);
    assert r.result == Failure(0, env.exec(w.step + 2) == TimesOut) && r.world.effects == w.effects;
    assert r.batch == [r.batch[0]];
    AttemptCompletes(cfg, env, r.world, r.batch[0], 1, true);
  }

  /** If it is the COMMIT that runs into one, the same. */
  lemma CommitIsRetried(cfg: Config, env: Env, w: World, m: Script)
    requires InTransaction(cfg, m.filename) && cfg.knowsTimeouts && cfg.maxAttempts >= 2 && cfg.skipHistory
    requires env.begin(w.step) == Fine && env.open(w.step + 1) == Fine && env.exec(w.step + 2) == Fine
    requires env.commit(w.step + 3) != Fine
    requires forall n :: n > w.step + 3 ==> env.open(n) == Fine && env.begin(n) == Fine && env.exec(n) == Fine
                                            && env.write(n) == Fine && env.commit(n) == Fine
    ensures var t := RunWithRetry(cfg, env, w, [m]);
      if env.commit(w.step + 3) == TimesOut
      then t.finish == Completed && t.attempts == 2 && t.world.effects == w.effects + [Done(m.filename)]
      else t.finish == Stopped && t.attempts == 1 && t.world.effects == w.effects
  {
    TransactionExactly(cfg, [m]);
    OneScript(cfg, env, Tick(w), m);
    var next := [m][0 := m.(started := true, success := true)];
    forall v ensures RunScripts(cfg, env, v, next, 1) == Ran(v, next, Success) {
    }
    var r := Run(cfg, env, w, [m]);
    assert r.result == Failure(0, env.commit(w.step + 3) == TimesOut) && r.world.effects == w.effects;
    assert r.batch == [r.batch[0]];
    AttemptCompletes(cfg, env, r.world, r.batch[0], 1, true);
  }

  /** If BEGIN fails, nothing is executed; if it runs into a lock timeout, the run crashes. */
  lemma BeginFails(cfg: Config, env: Env, w: World, batch: seq<Script>)
    requires batch != [] && (|batch| > 1 || InTransaction(cfg, batch[0].filename)) && env.begin(w.step) != Fine
    ensures var t := RunWithRetry(cfg, env, w, batch);
      && t.world.effects == w.effects && t.world.history == w.history && t.attempts == 1
      && t.finish == if env.begin(w.step) == TimesOut && cfg.knowsTimeouts then Crashed else Stopped
  {
    TransactionExactly(cfg, batch);
  }

  // ----- what ls shows of a failure -----

  lemma OneRow(cfg: Config, env: Env, w: World, m: Script)
    requires !cfg.skipHistory && env.write(w.step) == Fine
    ensures Record(cfg, env, w, [m], 0).history == w.history[m.filename := Row(Some(m.checksum), m.started, false)]
  {
    assert FailureRows(w.history, [m], 0) == w.history;
  }

  lemma RecordsFailure(cfg: Config, env: Env, w: World, m: Script, isRetryable: bool)
    requires !cfg.skipHistory && m.started && forall n :: env.write(n) == Fine
    ensures StatusOf(GiveUp(cfg, env, w, [m], 0, isRetryable).history, cfg.checksum, m.filename) == HasFailed
  {
    OneRow(cfg, env, w, m);
    OneRow(cfg, env, Undo(cfg, env, w, m.filename), m);
  }

  /** A script that was started and failed shows as failed, if its row could be written. */
  lemma FailureIsShown(cfg: Config, env: Env, w: World, m: Script)
    requires !cfg.skipHistory && !cfg.knowsTimeouts
    requires (forall n :: env.open(n) == Fine) && (forall n :: env.begin(n) == Fine)
    requires forall n :: env.write(n) == Fine
    requires RunWithRetry(cfg, env, w, [m]).finish != Completed
    ensures StatusOf(RunWithRetry(cfg, env, w, [m]).world.history, cfg.checksum, m.filename) == HasFailed
  {
    var isTx := IsTx(cfg, [m]);
    var start := if isTx then w else Tick(w);
    OneAttempt(cfg, env, start, [m], isTx || cfg.isStatement(m.filename));
    OneScript(cfg, env, Tick(w), m);
    var r := Run(cfg, env, start, [m]);
    assert r.batch == [r.batch[0]] && r.result.stoppedAt == 0;
    RecordsFailure(cfg, env, r.world, r.batch[0], isTx || cfg.isStatement(m.filename));
  }
}
