/** The migrate command: it keeps a queue of scripts, runs them in batches, and records them
    in the history table. */
module MigrateCommand {
  import opened Common
  import opened MigrationRunner

  /** The command with its connection. `effects` and `history` are what the connection sees:
      inside a transaction they include what is not committed yet. */
  class MigrateCmd {
    const cfg: Config
    const env: Env
    var effects: seq<Effect>
    var history: map<string, Row>
    var step: nat

    constructor (cfg: Config, env: Env, history: map<string, Row>)
      ensures this.cfg == cfg && this.env == env && Now() == World([], history, 0)
    {
      this.cfg, this.env, this.effects, this.history, this.step := cfg, env, [], history, 0;
    }

    ghost function Now(): World
      reads this
    {
      World(effects, history, step)
    }

    /** The scripts of a batch one after another, up to the first that fails. They keep what
        their run came to. */
    method RunScripts(scripts: seq<Script>) returns (batch: seq<Script>, result: Result)
      modifies this
      ensures MigrationRunner.RunScripts(cfg, env, old(Now()), scripts, 0) == Ran(Now(), batch, result)
    {
      batch := scripts;
      var i := 0;
      while i < |batch|
        invariant 0 <= i <= |batch| == |scripts|
        invariant MigrationRunner.RunScripts(cfg, env, old(Now()), scripts, 0)
            == MigrationRunner.RunScripts(cfg, env, Now(), batch, i)
      {
        var m := batch[i];
        var access := env.open(step);
        step := step + 1;
        if access != Fine {
          return batch, Failure(i, false);
        }
        var outcome := env.exec(step);
        step := step + 1;
        m := m.(started := true, success := outcome == Fine);
        batch := batch[i := m];
        if outcome != Fine {
          effects := effects + [Partial(m.filename)];
          return batch, Failure(i, outcome == TimesOut);
        }
        effects := effects + [Done(m.filename)];
        if cfg.skipHistory {
          i := i + 1;
          continue;
        }
        var written := env.write(step);
        step := step + 1;
        if written != Fine {
          return batch, Failure(i, written == TimesOut);
        }
        history := history[m.filename := Row(Some(m.checksum), m.started, m.success)];
        i := i + 1;
      }
      return batch, Success;
    }

    /** One batch, once, in a transaction if it needs one. */
    method Run(scripts: seq<Script>) returns (batch: seq<Script>, result: Result)
      requires scripts != []
      modifies this
      ensures MigrationRunner.Run(cfg, env, old(Now()), scripts) == Ran(Now(), batch, result)
    {
      var isTx := |scripts| > 1 || (!HasSuffix(scripts[0].filename, ".txoff.sql") && !cfg.isMySql)
          || HasSuffix(scripts[0].filename, ".tx.sql");
      if !isTx {
        batch, result := RunScripts(scripts);
        return;
      }
      var effectsBefore, historyBefore := effects, history;
      var outcome := env.begin(step);
      step := step + 1;
      if outcome != Fine {
        return scripts, Failure(-1, outcome == TimesOut);
      }
      batch, result := RunScripts(scripts);
      if result.Failure? {
        effects, history := effectsBefore, historyBefore;
        return;
      }
      outcome := env.commit(step);
      step := step + 1;
      if outcome != Fine {
        effects, history := effectsBefore, historyBefore;
        result := Failure(|scripts| - 1, outcome == TimesOut);
      }
    }

    /** The undo script of a script that failed outside a transaction. */
    method Undo(filename: string)
      modifies this
      ensures Now() == MigrationRunner.Undo(cfg, env, old(Now()), filename)
    {
      var undofile := UndoFile(filename);
      if !cfg.hasUndo(undofile) {
        return;
      }
      var access := env.open(step);
      step := step + 1;
      if access != Fine {
        return;
      }
      var outcome := env.exec(step);
      step := step + 1;
      effects := effects + [if outcome == Fine then Undone(undofile) else Partial(undofile)];
    }

    /** Rows for the scripts up to the one that failed. */
    method RecordFailure(batch: seq<Script>, stoppedAt: nat)
      requires stoppedAt < |batch|
      modifies this
      ensures effects == old(effects) && step == old(step) + 1
      ensures history == if env.write(old(step)) == Fine then FailureRows(old(history), batch, stoppedAt + 1)
          else old(history)
    {
      var rows := history;
      var i := 0;
      while i <= stoppedAt
        invariant 0 <= i <= stoppedAt + 1
        invariant rows == FailureRows(history, batch, i)
      {
        var m := batch[i];
        rows := rows[m.filename := Row(Some(m.checksum), m.started, false)];
        i := i + 1;
      }
      if env.write(step) == Fine {
        history := rows;
      }
      step := step + 1;
    }

    /** After a failure that is not retried. */
    method GiveUp(batch: seq<Script>, stoppedAt: int, isRetryable: bool)
      requires batch != [] && stoppedAt < |batch|
      modifies this
      ensures Now() == MigrationRunner.GiveUp(cfg, env, old(Now()), batch, stoppedAt, isRetryable)
    {
      if !isRetryable {
        Undo(batch[0].filename);
      }
      if stoppedAt < 0 || cfg.skipHistory {
        return;
      }
      RecordFailure(batch, stoppedAt);
    }

    /** One batch, again and again while it runs into lock timeouts. */
    method RunWithRetry(queue: seq<Script>) returns (attempts: nat, finish: Finish, result: Result)
      requires queue != []
      modifies this
      ensures MigrationRunner.RunWithRetry(cfg, env, old(Now()), queue) == Tried(Now(), attempts, finish, result)
    {
      var isTx := |queue| > 1 || (!HasSuffix(queue[0].filename, ".txoff.sql") && !cfg.isMySql)
          || HasSuffix(queue[0].filename, ".tx.sql");
      var isStmt := false;
      if !isTx {
        var access := env.open(step);
        step := step + 1;
        if access != Fine {
          return 0, Stopped, Failure(-1, false);
        }
        isStmt := cfg.isStatement(queue[0].filename);
      }
      attempts, finish, result := Retry(queue, isTx || isStmt);
    }

    method Retry(queue: seq<Script>, isRetryable: bool) returns (attempts: nat, finish: Finish, result: Result)
      requires queue != []
      modifies this
      ensures MigrationRunner.Retry(cfg, env, old(Now()), queue, 0, isRetryable)
          == Tried(Now(), attempts, finish, result)
    {
      var batch := queue;
      attempts := 0;
      while true
        invariant batch != []
        invariant MigrationRunner.Retry(cfg, env, old(Now()), queue, 0, isRetryable)
               == MigrationRunner.Retry(cfg, env, Now(), batch, attempts, isRetryable)
        decreases if cfg.maxAttempts > attempts then cfg.maxAttempts - attempts else 0
      {
        RunStops(cfg, env, Now(), batch);
        batch, result := Run(batch);
        attempts := attempts + 1;
        match result
        case Success =>
          return attempts, Completed, result;
        case Failure(stoppedAt, timeout) =>
          if isRetryable && cfg.knowsTimeouts && timeout {
            if stoppedAt < 0 {
              return attempts, Crashed, result;
            }
            if attempts >= cfg.maxAttempts {
              return attempts, Stopped, result;
            }
            continue;
          }
          GiveUp(batch, stoppedAt, isRetryable);
          return attempts, Stopped, result;
      }
    }

    /** What the history table says about the files, by their place in the list. */
    method Load(files: seq<string>) returns (scripts: seq<Script>)
      ensures scripts == AllKnown(cfg, history, files)
    {
      scripts := [];
      var cache: map<string, nat> := map[];
      var i := 0;
      while i < |files|
        invariant 0 <= i <= |files| && |scripts| == i
        invariant forall k :: 0 <= k < i ==> scripts[k] == Script(false, files[k], "", false, false)
        invariant forall f :: f in cache <==> f in files[..i]
        invariant forall f :: f in cache ==> cache[f] < i && files[cache[f]] == f && f !in files[cache[f] + 1..i]
      {
        scripts := scripts + [Script(false, files[i], "", false, false)];
        cache := cache[files[i] := i];
        i := i + 1;
      }
      if !cfg.skipHistory {
        scripts := Fill(files, scripts, cache);
      }
    }

    /** One pass over the rows of the table, in any order. */
    method Fill(files: seq<string>, blank: seq<Script>, cache: map<string, nat>) returns (scripts: seq<Script>)
      requires !cfg.skipHistory && |blank| == |files|
      requires forall k :: 0 <= k < |files| ==> blank[k] == Script(false, files[k], "", false, false)
      requires forall f :: f in cache <==> f in files
      requires forall f :: f in cache ==> cache[f] < |files| && files[cache[f]] == f && f !in files[cache[f] + 1..]
      ensures scripts == AllKnown(cfg, history, files)
    {
      scripts := blank;
      var rows := history.Keys;
      while rows != {}
        invariant rows <= history.Keys && |scripts| == |files|
        invariant forall k :: 0 <= k < |files| ==>
          scripts[k] == if files[k] in rows then blank[k] else Known(cfg, history, files, k)
        decreases |rows|
      {
        var f :| f in rows;
        rows := rows - {f};
        if f in cache {
          var row := history[f];
          scripts := scripts[cache[f] := Script(true, f, if row.checksum.Some? then row.checksum.value else "",
                                                row.started, row.success)];
        }
      }
    }

    /** The scripts in the queue, if any, as one batch. */
    method Flush(queue: seq<Script>, ghost calls: seq<seq<Script>>) returns (ok: bool, ghost after: seq<seq<Script>>)
      modifies this
      ensures MigrationRunner.Flush(cfg, env, old(Now()), queue, calls) == Migrated(Now(), after, ok)
    {
      if |queue| == 0 {
        return true, calls;
      }
      var attempts, finish, result := RunWithRetry(queue);
      return finish == Completed, calls + [queue];
    }

    /** A repeatable script, with what its file hashes to now. */
    method Reread(m: Script) returns (ok: bool, next: Script)
      modifies this`step
      ensures step == old(step) + 1 && ok == (env.open(old(step)) == Fine)
      ensures ok ==> next == m.(checksum := cfg.checksum(m.filename))
    {
      ok := env.open(step) == Fine;
      step := step + 1;
      next := m;
      if ok {
        next := m.(checksum := cfg.checksum(m.filename));
      }
    }

    /** A run over files that are already sorted. */
    method Migrate(files: seq<string>) returns (ok: bool, ghost calls: seq<seq<Script>>)
      modifies this
      ensures MigrationRunner.Migrate(cfg, env, old(Now()), files) == Migrated(Now(), calls, ok)
    {
      var scripts := Load(files);
      var queue: seq<Script> := [];
      calls := [];
      var i := 0;
      while i < |scripts|
        invariant 0 <= i <= |scripts|
        invariant MigrationRunner.Migrate(cfg, env, old(Now()), files)
            == RunFrom(cfg, env, Now(), scripts, i, queue, calls)
      {
        var m := scripts[i];
        if !IsRepeatable(m.filename) && m.valid && m.success {
          i := i + 1;
          continue;
        }
        if IsRepeatable(m.filename) {
          var access, next := Reread(m);
          if !access {
            return false, calls;
          }
          if next.checksum == m.checksum && m.valid && m.success {
            i := i + 1;
            continue;
          }
          m := next;
        }
        ghost var expected := Enqueue(cfg, env, Now(), scripts, i, m, queue, calls);
        if |queue| > 0 && (cfg.isMySql || IsSpecial(queue[0].filename) || IsSpecial(m.filename)) {
          var flushed;
          flushed, calls := Flush(queue, calls);
          if !flushed {
            return false, calls;
          }
          queue := [];
          assert queue + [m] == [m];
        }
        queue := queue + [m];
        i := i + 1;
        assert expected == RunFrom(cfg, env, Now(), scripts, i, queue, calls);
      }
      ok, calls := Flush(queue, calls);
    }
  }
}
