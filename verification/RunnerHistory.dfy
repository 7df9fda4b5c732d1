/** What holds of the history table over any number of commands. */
module RunnerHistory {
  import opened Common
  import opened MigrationRunner
  import opened RunnerBatches
  import opened RunnerSafety
  import opened HistoryCommands

  // ----- a success has a start -----

  /** A row that says success has a start time. */
  ghost predicate Started(history: map<string, Row>) {
    forall f :: f in history && history[f].success ==> history[f].started
  }

  lemma {:induction false} ScriptsKeepStarted(cfg: Config, env: Env, w: World, batch: seq<Script>, i: nat)
    requires i <= |batch| && Started(w.history)
    ensures Started(RunScripts(cfg, env, w, batch, i).world.history)
    decreases |batch| - i
  {
    if i < |batch| && env.open(w.step) == Fine && env.exec(w.step + 1) == Fine {
      var m := batch[i];
      var next := batch[i := m.(started := true, success := true)];
      var done := Tick(Tick(w)).(effects := w.effects + [Done(m.filename)]);
      if cfg.skipHistory {
        ScriptsKeepStarted(cfg, env, done, next, i + 1);
      } else {
        ScriptsKeepStarted(cfg, env,
            Tick(done).(history := done.history[m.filename := Row(Some(m.checksum), true, true)]), next, i + 1);
      }
    }
  }

  lemma {:induction false} FailureRowsKeepStarted(history: map<string, Row>, batch: seq<Script>, n: nat)
    requires n <= |batch| && Started(history)
    ensures Started(FailureRows(history, batch, n))
  {
    if n == 0 {
    } else {
      FailureRowsKeepStarted(history, batch, n - 1);
    }
  }

  lemma RunKeepsStarted(cfg: Config, env: Env, w: World, batch: seq<Script>)
    requires batch != [] && Started(w.history)
    ensures Started(Run(cfg, env, w, batch).world.history)
  {
    ScriptsKeepStarted(cfg, env, w, batch, 0);
    ScriptsKeepStarted(cfg, env, Tick(w), batch, 0);
  }

  lemma GiveUpKeepsStarted(cfg: Config, env: Env, w: World, batch: seq<Script>, stoppedAt: int, isRetryable: bool)
    requires batch != [] && stoppedAt < |batch| && Started(w.history)
    ensures Started(GiveUp(cfg, env, w, batch, stoppedAt, isRetryable).history)
  {
    if stoppedAt >= 0 {
      FailureRowsKeepStarted(w.history, batch, stoppedAt + 1);
    }
  }

  lemma {:induction false} RetryKeepsStarted(cfg: Config, env: Env, w: World, batch: seq<Script>, attempts: nat,
                                             isRetryable: bool)
    requires batch != [] && Started(w.history)
    ensures Started(Retry(cfg, env, w, batch, attempts, isRetryable).world.history)
    decreases if cfg.maxAttempts > attempts then cfg.maxAttempts - attempts else 0
  {
    RunStops(cfg, env, w, batch);
    RunKeepsStarted(cfg, env, w, batch);
    var r := Run(cfg, env, w, batch);
    if TriesAgain(cfg, r, attempts, isRetryable) {
      RetryKeepsStarted(cfg, env, r.world, r.batch, attempts + 1, isRetryable);
    } else if r.result.Failure? {
      GiveUpKeepsStarted(cfg, env, r.world, r.batch, r.result.stoppedAt, isRetryable);
    }
  }

  lemma FlushKeepsStarted(cfg: Config, env: Env, w: World, queue: seq<Script>, calls: seq<seq<Script>>)
    requires Started(w.history)
    ensures Started(Flush(cfg, env, w, queue, calls).world.history)
  {
    if queue != [] {
      RetryKeepsStarted(cfg, env, w, queue, 0, true);
      RetryKeepsStarted(cfg, env, Tick(w), queue, 0, cfg.isStatement(queue[0].filename));
    }
  }

  lemma {:induction false} RunFromKeepsStarted(cfg: Config, env: Env, w: World, scripts: seq<Script>, i: nat,
                                               queue: seq<Script>, calls: seq<seq<Script>>)
    requires i <= |scripts| && Started(w.history)
    ensures Started(RunFrom(cfg, env, w, scripts, i, queue, calls).world.history)
    decreases |scripts| - i
  {
    if i == |scripts| {
      FlushKeepsStarted(cfg, env, w, queue, calls);
    } else {
      RunFromStep(cfg, env, w, scripts, i, queue, calls);
      var next := if IsRepeatable(scripts[i].filename) then Tick(w) else w;
      match Picked(cfg, scripts[i])
      case None => RunFromKeepsStarted(cfg, env, next, scripts, i + 1, queue, calls);
      case Some(m) =>
        if queue == [] || !MustFlush(cfg, queue, m) {
          RunFromKeepsStarted(cfg, env, next, scripts, i + 1, queue + [m], calls);
        } else {
          FlushKeepsStarted(cfg, env, next, queue, calls);
          var f := Flush(cfg, env, next, queue, calls);
          RunFromKeepsStarted(cfg, env, f.world, scripts, i + 1, [m], f.calls);
        }
    }
  }

  // ----- any sequence of commands -----

  datatype Command =
    | MigrateRun(cfg: Config, env: Env, files: seq<string>)
    | TouchRun(commits: bool, checksum: string -> string, files: seq<string>)
    | RmRun(files: seq<string>)
    | MvRun(src: string, dest: string)

  function After(c: Command, w: World): World {
    match c
    case MigrateRun(cfg, env, files) => Migrate(cfg, env, w, SortAndFilter(files)).world
    case TouchRun(commits, checksum, files) => if commits
        then w.(history := Touched(w.history, SortAndFilter(files), checksum)) else w
    case RmRun(files) => w.(history := Removed(w.history, files))
    case MvRun(src, dest) => w.(history := Moved(w.history, src, dest))
  }

  function AfterAll(cs: seq<Command>, w: World): World {
    if cs == [] then w else After(cs[|cs| - 1], AfterAll(cs[..|cs| - 1], w))
  }

  lemma TouchKeepsStarted(history: map<string, Row>, files: seq<string>, checksum: string -> string)
    requires Started(history)
    ensures Started(Touched(history, files, checksum))
  {
    forall f ensures f in Touched(history, files, checksum) && Touched(history, files, checksum)[f].success ==>
        Touched(history, files, checksum)[f].started {
      TouchedRow(history, files, checksum, f);
    }
  }

  /** Whatever is run on an empty history, and however it turns out, a success has a start. */
  lemma {:induction false} SuccessHasStarted(cs: seq<Command>, w: World)
    requires Started(w.history)
    ensures Started(AfterAll(cs, w).history)
  {
    if cs == [] {
    } else {
      SuccessHasStarted(cs[..|cs| - 1], w);
      var mid := AfterAll(cs[..|cs| - 1], w);
      match cs[|cs| - 1]
      case MigrateRun(cfg, env, files) =>
        RunFromKeepsStarted(cfg, env, mid, AllKnown(cfg, mid.history, SortAndFilter(files)), 0, [], []);
      case TouchRun(commits, checksum, files) => TouchKeepsStarted(mid.history, SortAndFilter(files), checksum);
      case RmRun(files) =>
      case MvRun(src, dest) =>
    }
  }

  // ----- ls shows what migrate would run -----

  lemma {:induction false} PendingMember(cfg: Config, scripts: seq<Script>, f: string)
    ensures f in Names(Pending(cfg, scripts)) <==>
        exists i :: 0 <= i < |scripts| && scripts[i].filename == f && Picked(cfg, scripts[i]).Some?
  {
    if scripts == [] {
    } else {
      var init, last := scripts[..|scripts| - 1], scripts[|scripts| - 1];
      PendingMember(cfg, init, f);
      assert scripts[|init|] == last;
      if Picked(cfg, last).Some? {
        NamesConcat(Pending(cfg, init), [Picked(cfg, last).value]);
        assert Names([Picked(cfg, last).value]) == [last.filename];
      } else {
        assert Pending(cfg, scripts) == Pending(cfg, init);
      }
      if i: nat :| i < |init| && init[i].filename == f && Picked(cfg, init[i]).Some? {
        assert scripts[i] == init[i];
      }
      if i: nat :| i < |scripts| && scripts[i].filename == f && Picked(cfg, scripts[i]).Some? {
        assert i < |init| ==> init[i] == scripts[i];
      }
    }
  }

  /** The checksum that a row has, or none. */
  function StoredChecksum(row: Row): string {
    if row.checksum.Some? then row.checksum.value else ""
  }

  /** A row that says success, without a start, of a file that has not changed since or is not repeatable. */
  predicate Unstarted(history: map<string, Row>, checksum: string -> string, f: string) {
    f in history && history[f].success && !history[f].started
    && (IsRepeatable(f) ==> checksum(f) == StoredChecksum(history[f]))
  }

  /** For one file: ls lists what migrate would run, and leaves out what it would not, unless a row says success without
      a start: that file is listed, but not run. */
  lemma LsAgreesExactly(cfg: Config, history: map<string, Row>, files: seq<string>, i: nat)
    requires !cfg.skipHistory && Distinct(files) && i < |files|
    ensures (StatusOf(history, cfg.checksum, files[i]) != Applied <==> Picked(cfg, Known(cfg, history, files, i)).Some?)
       <==> !Unstarted(history, cfg.checksum, files[i])
  {
    NotBehind(files, i);
  }

  lemma NotBehind(files: seq<string>, i: nat)
    requires Distinct(files) && i < |files|
    ensures files[i] !in files[i + 1..]
  {
  }

  /** After any commands, ls lists as pending or failed exactly the files that migrate would run. */
  lemma LsShowsPending(cs: seq<Command>, w: World, cfg: Config, files: seq<string>, f: string)
    requires Started(w.history) && !cfg.skipHistory && Distinct(files)
    ensures var history := AfterAll(cs, w).history;
      f in files && StatusOf(history, cfg.checksum, f) != Applied <==>
          f in Names(Pending(cfg, AllKnown(cfg, history, files)))
  {
    SuccessHasStarted(cs, w);
    var history := AfterAll(cs, w).history;
    PendingMember(cfg, AllKnown(cfg, history, files), f);
    forall i | 0 <= i < |files| && files[i] == f
      ensures StatusOf(history, cfg.checksum, f) != Applied <==> Picked(cfg, AllKnown(cfg, history, files)[i]).Some?
    {
      LsAgreesExactly(cfg, history, files, i);
    }
  }

  /** These are the lines that it writes. */
  lemma LsListsPending(cs: seq<Command>, w: World, cfg: Config, files: seq<string>, f: string)
    requires Started(w.history) && !cfg.skipHistory && Distinct(files)
    ensures var history := AfterAll(cs, w).history;
      (exists s :: (s, f) in Listed(history, cfg.checksum, files)) <==>
          f in Names(Pending(cfg, AllKnown(cfg, history, files)))
  {
    var history := AfterAll(cs, w).history;
    LsShowsPending(cs, w, cfg, files, f);
    ListedExactly(history, cfg.checksum, files);
    assert forall s :: (s, f) in Listed(history, cfg.checksum, files) ==> f in files;
    if f in files && StatusOf(history, cfg.checksum, f) != Applied {
      assert (StatusOf(history, cfg.checksum, f), f) in Listed(history, cfg.checksum, files);
    }
  }

  // ----- no script completes twice -----

  /** A script that is not repeatable has completed at most once, and if it has, its row says so. */
  ghost predicate OnceOnly(w: World) {
    && (forall i, k :: 0 <= i < k < |Finished(w.effects)| && Finished(w.effects)[i] == Finished(w.effects)[k] ==>
          IsRepeatable(Finished(w.effects)[i]))
    && (forall f :: f in Finished(w.effects) && !IsRepeatable(f) ==> Succeeded(w.history, f))
  }

  predicate Succeeded(history: map<string, Row>, f: string) {
    f in history && history[f].success
  }

  lemma {:induction false} PendingDistinct(cfg: Config, scripts: seq<Script>)
    requires Distinct(Names(scripts))
    ensures Distinct(Names(Pending(cfg, scripts)))
  {
    if scripts == [] {
    } else {
      var init, last := scripts[..|scripts| - 1], scripts[|scripts| - 1];
      assert Names(scripts) == Names(init) + [last.filename];
      PendingDistinct(cfg, init);
      PendingMember(cfg, init, last.filename);
      forall i | 0 <= i < |init| ensures init[i].filename != last.filename {
        assert Names(init)[i] == Names(scripts)[i];
      }
      if Picked(cfg, last).Some? {
        assert Names(Pending(cfg, scripts)) == Names(Pending(cfg, init)) + [last.filename];
      } else {
        assert Pending(cfg, scripts) == Pending(cfg, init);
      }
    }
  }

  /** The rows once the first n scripts of a list with distinct names have succeeded. */
  lemma {:induction false} SuccessRow(cfg: Config, history: map<string, Row>, batch: seq<Script>, n: nat, f: string)
    requires n <= |batch| && Distinct(Names(batch)) && !cfg.skipHistory
    ensures forall i :: 0 <= i < n && batch[i].filename == f ==>
              f in SuccessRows(cfg, history, batch, n)
                  && SuccessRows(cfg, history, batch, n)[f] == Row(Some(batch[i].checksum), true, true)
    ensures f !in Names(batch)[..n] ==>
              (f in SuccessRows(cfg, history, batch, n) <==> f in history)
              && (f in history ==> SuccessRows(cfg, history, batch, n)[f] == history[f])
  {
    if n == 0 {
    } else {
      SuccessRow(cfg, history, batch, n - 1, f);
      assert Names(batch)[..n] == Names(batch)[..n - 1] + [batch[n - 1].filename];
      forall i | 0 <= i < n - 1 ensures batch[i].filename != batch[n - 1].filename {
        assert Names(batch)[i] != Names(batch)[n - 1];
      }
    }
  }

  /** A file is pending only if its row does not say success, or it is repeatable. */
  lemma PendingNotSucceeded(cfg: Config, history: map<string, Row>, files: seq<string>, f: string)
    requires !cfg.skipHistory && Distinct(files) && f in Names(Pending(cfg, AllKnown(cfg, history, files)))
    requires !IsRepeatable(f)
    ensures !Succeeded(history, f)
  {
    PendingMember(cfg, AllKnown(cfg, history, files), f);
    var i: nat :| i < |files| && files[i] == f && Picked(cfg, AllKnown(cfg, history, files)[i]).Some?;
    assert files[i] !in files[i + 1..];
  }

  /** The rows of completed scripts stay as far as a run gets. */
  lemma ProgressKeepsSuccess(cfg: Config, start: World, pending: seq<Script>, n: nat, k: nat, now: World, f: string)
    requires n + k <= |pending| && Distinct(Names(pending)) && !cfg.skipHistory
    requires Progress(cfg, start, pending, n, k, now)
    requires f in Names(pending)[..n] || (f !in Names(pending) && Succeeded(start.history, f))
    ensures Succeeded(now.history, f)
  {
    SuccessRow(cfg, start.history, pending, n, f);
    assert f in Names(pending)[..n] ==> exists i :: 0 <= i < n && pending[i].filename == f;
    assert f !in Names(pending[n..])[..k];
  }

  lemma ProgressIsOnceOnly(cfg: Config, start: World, pending: seq<Script>, n: nat, k: nat, now: World)
    requires OnceOnly(start) && n + k <= |pending| && Distinct(Names(pending)) && !cfg.skipHistory
    requires Progress(cfg, start, pending, n, k, now)
    requires forall f :: f in Names(pending) && !IsRepeatable(f) ==> !Succeeded(start.history, f)
    ensures OnceOnly(now)
  {
    var was, new_ := Finished(start.effects), Names(pending)[..n];
    assert Finished(now.effects) == was + new_;
    forall f | f in was + new_ && !IsRepeatable(f) ensures Succeeded(now.history, f) {
      if f in was {
        assert f !in Names(pending);
      }
      ProgressKeepsSuccess(cfg, start, pending, n, k, now, f);
    }
    forall i, j | 0 <= i < j < |was + new_| && (was + new_)[i] == (was + new_)[j]
        ensures IsRepeatable((was + new_)[i]) {
    }
  }

  /** A run keeps it so, whatever fails, as long as the files have distinct names and no write
      to the history fails for a script outside a transaction. */
  lemma MigrateIsOnceOnly(cfg: Config, env: Env, w: World, files: seq<string>)
    requires OnceOnly(w) && Distinct(files) && Safe(cfg, env, files) && !cfg.skipHistory
    ensures OnceOnly(Migrate(cfg, env, w, files).world)
  {
    var scripts := AllKnown(cfg, w.history, files);
    var pending := Pending(cfg, scripts);
    var m := Migrate(cfg, env, w, files);
    MigrateEnds(cfg, env, w, files);
    assert Names(scripts) == files;
    PendingDistinct(cfg, scripts);
    forall f | f in Names(pending) && !IsRepeatable(f) ensures !Succeeded(w.history, f) {
      PendingNotSucceeded(cfg, w.history, files, f);
    }
    assert GotSomewhere(cfg, w, pending, m.world, m.ok);
    var n, k :| 0 <= n && 0 <= k && n + k <= |pending| && Progress(cfg, w, pending, n, k, m.world)
        && (m.ok ==> n == |pending| && k == 0);
    ProgressIsOnceOnly(cfg, w, pending, n, k, m.world);
  }

  /** Commands that only add to the history. */
  ghost predicate Careful(c: Command) {
    match c
    case MigrateRun(cfg, env, files) => Distinct(files) && Safe(cfg, env, SortAndFilter(files)) && !cfg.skipHistory
    case TouchRun(_, _, _) => true
    case RmRun(_) => false
    case MvRun(_, _) => false
  }

  /** Over any number of runs of migrate and touch, each script completes at most once. */
  lemma {:induction false} EachScriptCompletesOnce(cs: seq<Command>, w: World)
    requires OnceOnly(w) && forall i :: 0 <= i < |cs| ==> Careful(cs[i])
    ensures OnceOnly(AfterAll(cs, w))
  {
    if cs == [] {
    } else {
      var init, mid := cs[..|cs| - 1], AfterAll(cs[..|cs| - 1], w);
      assert forall i :: 0 <= i < |init| ==> init[i] == cs[i];
      EachScriptCompletesOnce(init, w);
      match cs[|cs| - 1]
      case MigrateRun(cfg, env, files) =>
        SortAndFilterSorts(files);
        MigrateIsOnceOnly(cfg, env, mid, SortAndFilter(files));
      case TouchRun(commits, checksum, files) =>
        forall f | f in Finished(mid.effects) && !IsRepeatable(f) ensures Succeeded(AfterAll(cs, w).history, f) {
          TouchedRow(mid.history, SortAndFilter(files), checksum, f);
        }
    }
  }

  // ----- a run that succeeds leaves nothing to do -----

  lemma NothingPicked(cfg: Config, history: map<string, Row>, after: map<string, Row>, files: seq<string>, i: nat)
    requires !cfg.skipHistory && Distinct(files) && i < |files|
    requires var pending := Pending(cfg, AllKnown(cfg, history, files));
      after == SuccessRows(cfg, history, pending, |pending|)
    ensures Picked(cfg, Known(cfg, after, files, i)) == None
  {
    var scripts := AllKnown(cfg, history, files);
    var pending := Pending(cfg, scripts);
    var f := files[i];
    assert Names(scripts) == files;
    PendingDistinct(cfg, scripts);
    PendingMember(cfg, scripts, f);
    SuccessRow(cfg, history, pending, |pending|, f);
    assert Names(pending)[..|pending|] == Names(pending);
    assert f !in files[i + 1..];
    if f in Names(pending) {
      var k: nat :| k < |pending| && Names(pending)[k] == f;
      PendingChecksum(cfg, scripts, k);
      assert pending[k].filename == f;
    } else {
      assert Picked(cfg, scripts[i]).None?;
    }
  }

  /** A repeatable script is queued with what its file hashes to. */
  lemma {:induction false} PendingChecksum(cfg: Config, scripts: seq<Script>, k: nat)
    requires k < |Pending(cfg, scripts)|
    ensures var m := Pending(cfg, scripts)[k]; IsRepeatable(m.filename) ==> m.checksum == cfg.checksum(m.filename)
  {
    var init := scripts[..|scripts| - 1];
    if k < |Pending(cfg, init)| {
      PendingChecksum(cfg, init, k);
    }
  }

  lemma {:induction false} NothingPending(cfg: Config, scripts: seq<Script>)
    requires forall i :: 0 <= i < |scripts| ==> Picked(cfg, scripts[i]) == None
    ensures Pending(cfg, scripts) == []
  {
    if scripts == [] {
    } else {
      NothingPending(cfg, scripts[..|scripts| - 1]);
    }
  }

  /** After a run that succeeds, a second run on the same files finds nothing to run. */
  lemma SecondRunIsEmpty(cfg: Config, env: Env, w: World, files: seq<string>)
    requires Distinct(files) && Safe(cfg, env, files) && !cfg.skipHistory && Migrate(cfg, env, w, files).ok
    ensures Pending(cfg, AllKnown(cfg, Migrate(cfg, env, w, files).world.history, files)) == []
  {
    var pending := Pending(cfg, AllKnown(cfg, w.history, files));
    var m := Migrate(cfg, env, w, files);
    MigrateEnds(cfg, env, w, files);
    assert GotSomewhere(cfg, w, pending, m.world, true);
    var after := m.world.history;
    assert Progress(cfg, w, pending, |pending|, 0, m.world);
    forall i | 0 <= i < |files| ensures Picked(cfg, AllKnown(cfg, after, files)[i]) == None {
      NothingPicked(cfg, w.history, after, files, i);
    }
    NothingPending(cfg, AllKnown(cfg, after, files));
  }

  // ----- what the conditions are for -----

  ghost predicate AllFine(env: Env) {
    forall k ::
      && env.open(k) == Fine && env.begin(k) == Fine && env.exec(k) == Fine
      && env.write(k) == Fine && env.commit(k) == Fine
  }

  lemma {:induction false} FineScripts(cfg: Config, env: Env, w: World, batch: seq<Script>, i: nat)
    requires i <= |batch| && AllFine(env)
    ensures RunScripts(cfg, env, w, batch, i).result == Success
    decreases |batch| - i
  {
    if i < |batch| {
      var m := batch[i];
      var next := batch[i := m.(started := true, success := true)];
      var done := Tick(Tick(w)).(effects := w.effects + [Done(m.filename)]);
      if cfg.skipHistory {
        FineScripts(cfg, env, done, next, i + 1);
      } else {
        FineScripts(cfg, env, Tick(done).(history := done.history[m.filename := Row(Some(m.checksum), true, true)]),
                    next, i + 1);
      }
    }
  }

  lemma FineOnce(cfg: Config, env: Env, w: World, batch: seq<Script>)
    requires batch != [] && AllFine(env)
    ensures Run(cfg, env, w, batch).result == Success
  {
    FineScripts(cfg, env, w, batch, 0);
    FineScripts(cfg, env, Tick(w), batch, 0);
  }

  lemma FineFlush(cfg: Config, env: Env, w: World, queue: seq<Script>, calls: seq<seq<Script>>)
    requires AllFine(env)
    ensures Flush(cfg, env, w, queue, calls).ok
  {
    if queue != [] {
      FineOnce(cfg, env, w, queue);
      FineOnce(cfg, env, Tick(w), queue);
    }
  }

  /** If every step turns out fine, the run succeeds. */
  lemma {:induction false} FineRun(cfg: Config, env: Env, w: World, scripts: seq<Script>, i: nat, queue: seq<Script>,
                                   calls: seq<seq<Script>>)
    requires i <= |scripts| && AllFine(env)
    ensures RunFrom(cfg, env, w, scripts, i, queue, calls).ok
    decreases |scripts| - i
  {
    if i == |scripts| {
      FineFlush(cfg, env, w, queue, calls);
    } else {
      RunFromStep(cfg, env, w, scripts, i, queue, calls);
      var next := if IsRepeatable(scripts[i].filename) then Tick(w) else w;
      match Picked(cfg, scripts[i])
      case None => FineRun(cfg, env, next, scripts, i + 1, queue, calls);
      case Some(m) =>
        FineFlush(cfg, env, next, queue, calls);
        FineRun(cfg, env, next, scripts, i + 1, queue + [m], calls);
        var f := Flush(cfg, env, next, queue, calls);
        FineRun(cfg, env, f.world, scripts, i + 1, [m], f.calls);
    }
  }

  lemma PendingTwice(cfg: Config, history: map<string, Row>, f: string)
    requires !IsRepeatable(f) && f !in history
    ensures var m := Script(false, f, "", false, false); Pending(cfg, AllKnown(cfg, history, [f, f])) == [m, m]
  {
    var m := Script(false, f, "", false, false);
    var scripts := AllKnown(cfg, history, [f, f]);
    assert scripts == [m, m];
    PendingNext(cfg, scripts, 0);
    PendingNext(cfg, scripts, 1);
    assert scripts[..0] == [] && scripts[..2] == scripts;
  }

  /** A new file that is named twice is run twice in one run, with nothing going wrong. */
  lemma NamedTwiceRunsTwice(cfg: Config, env: Env, w: World, f: string)
    requires !IsRepeatable(f) && f !in w.history && AllFine(env)
    ensures var m := Migrate(cfg, env, w, [f, f]); m.ok && Finished(m.world.effects) == Finished(w.effects) + [f, f]
  {
    var scripts := AllKnown(cfg, w.history, [f, f]);
    PendingTwice(cfg, w.history, f);
    FineRun(cfg, env, w, scripts, 0, [], []);
    MigrateEnds(cfg, env, w, [f, f]);
    var m := Migrate(cfg, env, w, [f, f]);
    var pending := Pending(cfg, scripts);
    assert GotSomewhere(cfg, w, pending, m.world, true);
    assert Progress(cfg, w, pending, 2, 0, m.world);
    assert Names(pending)[..2] == [f, f];
  }

  /** The files can be opened and executed, but the history table cannot be written. */
  ghost predicate Unwritable(env: Env) {
    forall k :: env.open(k) == Fine && env.exec(k) == Fine && env.write(k) == Fails
  }

  lemma UnrecordedBatch(cfg: Config, env: Env, w: World, m: Script)
    requires !Transactional(cfg, m.filename) && !cfg.skipHistory && !cfg.hasUndo(UndoFile(m.filename))
    requires Unwritable(env)
    ensures var t := RunWithRetry(cfg, env, w, [m]);
      t.finish == Stopped && t.world.history == w.history && t.world.effects == w.effects + [Done(m.filename)]
  {
    var r := RunScripts(cfg, env, Tick(w), [m], 0);
    assert r.result == Failure(0, false) && r.world == World(w.effects + [Done(m.filename)], w.history, w.step + 4);
    assert r.batch == [m.(started := true, success := true)];
  }

  /** Outside a transaction, a script whose row cannot be written completes in every run. */
  lemma UnrecordedRunsAgain(cfg: Config, env: Env, w: World, f: string)
    requires !IsRepeatable(f) && f !in w.history && !Transactional(cfg, f) && !cfg.skipHistory
    requires !cfg.hasUndo(UndoFile(f)) && Unwritable(env)
    ensures var after := Migrate(cfg, env, w, [f]).world;
      after.history == w.history && Finished(after.effects) == Finished(w.effects) + [f]
  {
    var m := Script(false, f, "", false, false);
    var scripts := AllKnown(cfg, w.history, [f]);
    assert scripts == [m];
    RunFromStep(cfg, env, w, scripts, 0, [], []);
    assert [] + [m] == [m];
    UnrecordedBatch(cfg, env, w, m);
    FinishedSnoc(w.effects, Done(f));
  }
}
