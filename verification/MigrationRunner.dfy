/** How migration scripts are run against a database with a history table: what a run does,
    as a function of how each of its steps turns out. */
module MigrationRunner {
  import opened Common

  // ----- the database, and what can happen -----

  /** What a step against the file system or the database comes to. */
  datatype Outcome = Fine | Fails | TimesOut

  /** How the steps of each kind turn out, by the number of steps taken before. */
  datatype Env = Env(
    open: nat -> Outcome,
    begin: nat -> Outcome,
    exec: nat -> Outcome,
    write: nat -> Outcome,
    commit: nat -> Outcome)

  /** A row of the history table, apart from its timings. */
  datatype Row = Row(checksum: Option<string>, started: bool, success: bool)

  /** What scripts have done to the schema. */
  datatype Effect = Done(file: string) | Partial(file: string) | Undone(file: string)

  datatype World = World(effects: seq<Effect>, history: map<string, Row>, step: nat)

  function Tick(w: World): World {
    w.(step := w.step + 1)
  }

  /** A script, with what the history table said about it or what its last run came to. */
  datatype Script = Script(valid: bool, filename: string, checksum: string, started: bool, success: bool)

  /** The settings of a run, and what it reads from the files: `isStatement` is whether a file
      holds one statement, `checksum` what the file hashes to. */
  datatype Config = Config(
    isMySql: bool,
    maxAttempts: int,
    skipHistory: bool,
    knowsTimeouts: bool,
    isStatement: string -> bool,
    hasUndo: string -> bool,
    checksum: string -> string)

  predicate HasSuffix(s: string, suffix: string) {
    |s| >= |suffix| && s[|s| - |suffix|..] == suffix
  }

  predicate HasPrefix(s: string, prefix: string) {
    |s| >= |prefix| && s[..|prefix|] == prefix
  }

  function TrimSuffix(s: string, suffix: string): string {
    if HasSuffix(s, suffix) then s[..|s| - |suffix|] else s
  }

  predicate IsRepeatable(filename: string) {
    HasPrefix(filename, "repeatable/")
  }

  // ----- running one batch once -----

  /** A failure says at which script, -1 being before the first, and whether it was a lock timeout. */
  datatype Result = Success | Failure(stoppedAt: int, timeout: bool)

  datatype Ran = Ran(world: World, batch: seq<Script>, result: Result)

  predicate IsTx(cfg: Config, batch: seq<Script>)
    requires batch != []
  {
    |batch| > 1 || (!HasSuffix(batch[0].filename, ".txoff.sql") && !cfg.isMySql)
        || HasSuffix(batch[0].filename, ".tx.sql")
  }

  /** The scripts from i on, in the transaction if there is one. */
  function RunScripts(cfg: Config, env: Env, w: World, batch: seq<Script>, i: nat): Ran
    requires i <= |batch|
    decreases |batch| - i
  {
    if i == |batch| then Ran(w, batch, Success)
    else if env.open(w.step) != Fine then Ran(Tick(w), batch, Failure(i, false))
    else
      var m, outcome := batch[i], env.exec(w.step + 1);
      var next := batch[i := m.(started := true, success := outcome == Fine)];
      var w2 := Tick(Tick(w));
      if outcome != Fine
          then Ran(w2.(effects := w.effects + [Partial(m.filename)]), next, Failure(i, outcome == TimesOut))
      else
        var done := w2.(effects := w.effects + [Done(m.filename)]);
        if cfg.skipHistory then RunScripts(cfg, env, done, next, i + 1)
        else if env.write(done.step) != Fine then Ran(Tick(done), next, Failure(i, env.write(done.step) == TimesOut))
        else
          RunScripts(cfg, env, Tick(done).(history := done.history[m.filename := Row(Some(m.checksum), true, true)]),
                     next, i + 1)
  }

  function Rollback(before: World, now: World): World {
    World(before.effects, before.history, now.step)
  }

  function Run(cfg: Config, env: Env, w: World, batch: seq<Script>): Ran
    requires batch != []
  {
    if !IsTx(cfg, batch) then RunScripts(cfg, env, w, batch, 0)
    else if env.begin(w.step) != Fine then Ran(Tick(w), batch, Failure(-1, env.begin(w.step) == TimesOut))
    else
      var r := RunScripts(cfg, env, Tick(w), batch, 0);
      if r.result.Failure? then r.(world := Rollback(w, r.world))
      else if env.commit(r.world.step) != Fine then
        Ran(Tick(Rollback(w, r.world)), r.batch, Failure(|batch| - 1, env.commit(r.world.step) == TimesOut))
      else r.(world := Tick(r.world))
  }

  // ----- running one batch until it is through -----

  /** How a batch ends: a run that crashes has used -1 as an index. */
  datatype Finish = Completed | Stopped | Crashed

  /** `last` is what the last attempt came to. */
  datatype Tried = Tried(world: World, attempts: nat, finish: Finish, last: Result)

  function UndoFile(filename: string): string {
    TrimSuffix(TrimSuffix(filename, ".sql"), ".txoff") + ".undo.sql"
  }

  function Undo(cfg: Config, env: Env, w: World, filename: string): World {
    if !cfg.hasUndo(UndoFile(filename)) then w
    else if env.open(w.step) != Fine then Tick(w)
    else
      Tick(Tick(w)).(effects := w.effects
          + [if env.exec(w.step + 1) == Fine then Undone(UndoFile(filename)) else Partial(UndoFile(filename))])
  }

  /** The history with the first n scripts marked as failed. */
  function FailureRows(history: map<string, Row>, batch: seq<Script>, n: nat): map<string, Row>
    requires n <= |batch|
  {
    if n == 0 then history
    else
      var m := batch[n - 1];
      FailureRows(history, batch, n - 1)[m.filename := Row(Some(m.checksum), m.started, false)]
  }

  /** Rows for the scripts up to the one that failed. */
  function Record(cfg: Config, env: Env, w: World, batch: seq<Script>, stoppedAt: int): World
    requires stoppedAt < |batch|
  {
    if stoppedAt < 0 || cfg.skipHistory then w
    else if env.write(w.step) != Fine then Tick(w)
    else Tick(w).(history := FailureRows(w.history, batch, stoppedAt + 1))
  }

  /** After a failure that is not retried. */
  function GiveUp(cfg: Config, env: Env, w: World, batch: seq<Script>, stoppedAt: int, isRetryable: bool): World
    requires batch != [] && stoppedAt < |batch|
  {
    Record(cfg, env, if isRetryable then w else Undo(cfg, env, w, batch[0].filename), batch, stoppedAt)
  }

  lemma {:induction false} RunScriptsStops(cfg: Config, env: Env, w: World, batch: seq<Script>, i: nat)
    requires i <= |batch|
    ensures var r := RunScripts(cfg, env, w, batch, i);
      && |r.batch| == |batch| && (r.result.Failure? ==> i <= r.result.stoppedAt < |batch|)
      && forall k :: 0 <= k < |batch| ==>
         r.batch[k].filename == batch[k].filename && r.batch[k].checksum == batch[k].checksum
    decreases |batch| - i
  {
    if i < |batch| && env.open(w.step) == Fine && env.exec(w.step + 1) == Fine {
      var m := batch[i];
      var next := batch[i := m.(started := true, success := true)];
      var done := Tick(Tick(w)).(effects := w.effects + [Done(m.filename)]);
      if cfg.skipHistory {
        RunScriptsStops(cfg, env, done, next, i + 1);
      } else {
        RunScriptsStops(cfg, env,
            Tick(done).(history := done.history[m.filename := Row(Some(m.checksum), true, true)]), next, i + 1);
      }
    }
  }

  lemma RunStops(cfg: Config, env: Env, w: World, batch: seq<Script>)
    requires batch != []
    ensures var r := Run(cfg, env, w, batch);
      && |r.batch| == |batch| && (r.result.Failure? ==> -1 <= r.result.stoppedAt < |batch|)
      && forall k :: 0 <= k < |batch| ==>
         r.batch[k].filename == batch[k].filename && r.batch[k].checksum == batch[k].checksum
  {
    RunScriptsStops(cfg, env, w, batch, 0);
    RunScriptsStops(cfg, env, Tick(w), batch, 0);
  }

  /** The attempts after the first so many. */
  function Retry(cfg: Config, env: Env, w: World, batch: seq<Script>, attempts: nat, isRetryable: bool): Tried
    requires batch != []
    decreases if cfg.maxAttempts > attempts then cfg.maxAttempts - attempts else 0
  {
    RunStops(cfg, env, w, batch);
    var r := Run(cfg, env, w, batch);
    match r.result
    case Success => Tried(r.world, attempts + 1, Completed, r.result)
    case Failure(stoppedAt, timeout) =>
      if isRetryable && cfg.knowsTimeouts && timeout then
        if stoppedAt < 0 then Tried(r.world, attempts + 1, Crashed, r.result)
        else if attempts + 1 >= cfg.maxAttempts then Tried(r.world, attempts + 1, Stopped, r.result)
        else Retry(cfg, env, r.world, r.batch, attempts + 1, isRetryable)
      else Tried(GiveUp(cfg, env, r.world, r.batch, stoppedAt, isRetryable), attempts + 1, Stopped, r.result)
  }

  /** One batch. Outside a transaction the file is read first, to see if it can be retried. */
  function RunWithRetry(cfg: Config, env: Env, w: World, batch: seq<Script>): Tried
    requires batch != []
  {
    if IsTx(cfg, batch) then Retry(cfg, env, w, batch, 0, true)
    else if env.open(w.step) != Fine then Tried(Tick(w), 0, Stopped, Failure(-1, false))
    else Retry(cfg, env, Tick(w), batch, 0, cfg.isStatement(batch[0].filename))
  }

  // ----- a whole run -----

  /** What the history says about the files: if a name comes twice, about its last place only. */
  function Known(cfg: Config, history: map<string, Row>, files: seq<string>, i: nat): Script
    requires i < |files|
  {
    if !cfg.skipHistory && files[i] in history && files[i] !in files[i + 1..] then
      var row := history[files[i]];
      Script(true, files[i], if row.checksum.Some? then row.checksum.value else "", row.started, row.success)
    else Script(false, files[i], "", false, false)
  }

  function AllKnown(cfg: Config, history: map<string, Row>, files: seq<string>): (scripts: seq<Script>)
    ensures |scripts| == |files|
  {
    seq(|files|, i requires 0 <= i < |files| => Known(cfg, history, files, i))
  }

  predicate IsSpecial(filename: string) {
    HasSuffix(filename, ".tx.sql") || HasSuffix(filename, ".txoff.sql")
  }

  /** The run has to start a new batch with m. */
  predicate MustFlush(cfg: Config, queue: seq<Script>, m: Script)
    requires queue != []
  {
    cfg.isMySql || IsSpecial(queue[0].filename) || IsSpecial(m.filename)
  }

  /** `calls` is the batches run so far. */
  datatype Migrated = Migrated(world: World, calls: seq<seq<Script>>, ok: bool)

  function Flush(cfg: Config, env: Env, w: World, queue: seq<Script>, calls: seq<seq<Script>>): Migrated {
    if queue == [] then Migrated(w, calls, true)
    else
      var t := RunWithRetry(cfg, env, w, queue);
      Migrated(t.world, calls + [queue], t.finish == Completed)
  }

  /** The run from script i on. */
  function RunFrom(cfg: Config, env: Env, w: World, scripts: seq<Script>, i: nat, queue: seq<Script>,
                   calls: seq<seq<Script>>): Migrated
    requires i <= |scripts|
    decreases |scripts| - i
  {
    if i == |scripts| then Flush(cfg, env, w, queue, calls)
    else
      var m := scripts[i];
      if !IsRepeatable(m.filename) then
        if m.valid && m.success then RunFrom(cfg, env, w, scripts, i + 1, queue, calls)
        else Enqueue(cfg, env, w, scripts, i, m, queue, calls)
      else if env.open(w.step) != Fine then Migrated(Tick(w), calls, false)
      else
        var sum := cfg.checksum(m.filename);
        if sum == m.checksum && m.valid && m.success then RunFrom(cfg, env, Tick(w), scripts, i + 1, queue, calls)
        else Enqueue(cfg, env, Tick(w), scripts, i, m.(checksum := sum), queue, calls)
  }

  function Enqueue(cfg: Config, env: Env, w: World, scripts: seq<Script>, i: nat, m: Script, queue: seq<Script>,
                   calls: seq<seq<Script>>): Migrated
    requires i < |scripts|
    decreases |scripts| - i, 0
  {
    if queue == [] || !MustFlush(cfg, queue, m) then RunFrom(cfg, env, w, scripts, i + 1, queue + [m], calls)
    else
      var f := Flush(cfg, env, w, queue, calls);
      if !f.ok then f else RunFrom(cfg, env, f.world, scripts, i + 1, [m], f.calls)
  }

  /** A run over files that are already sorted. */
  function Migrate(cfg: Config, env: Env, w: World, files: seq<string>): Migrated {
    RunFrom(cfg, env, w, AllKnown(cfg, w.history, files), 0, [], [])
  }
}
