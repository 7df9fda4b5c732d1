/** What one batch leaves behind, however its steps turn out. */
module RunnerBatches {
  import opened Common
  import opened MigrationRunner

  /** The scripts that completed, in order. */
  function Finished(effects: seq<Effect>): seq<string> {
    if effects == [] then []
    else
      Finished(effects[..|effects| - 1]) + (if effects[|effects| - 1].Done? then [effects[|effects| - 1].file] else [])
  }

  lemma FinishedSnoc(effects: seq<Effect>, e: Effect)
    ensures Finished(effects + [e]) == if e.Done? then Finished(effects) + [e.file] else Finished(effects)
  {
    assert (effects + [e])[..|effects|] == effects;
  }

  function Names(batch: seq<Script>): (names: seq<string>)
    ensures |names| == |batch|
    ensures forall k :: 0 <= k < |batch| ==> names[k] == batch[k].filename
  {
    seq(|batch|, k requires 0 <= k < |batch| => batch[k].filename)
  }

  /** A run of a batch leaves the names and checksums of its scripts. */
  predicate SameScripts(a: seq<Script>, b: seq<Script>) {
    |a| == |b| && forall k :: 0 <= k < |a| ==> a[k].filename == b[k].filename && a[k].checksum == b[k].checksum
  }

  /** The history once the first n scripts have succeeded. */
  function SuccessRows(cfg: Config, history: map<string, Row>, batch: seq<Script>, n: nat): map<string, Row>
    requires n <= |batch|
  {
    if n == 0 || cfg.skipHistory then history
    else SuccessRows(cfg, history, batch, n - 1)[batch[n - 1].filename := Row(Some(batch[n - 1].checksum), true, true)]
  }

  lemma {:induction false} SameSuccessRows(cfg: Config, history: map<string, Row>, a: seq<Script>, b: seq<Script>,
                                           n: nat)
    requires SameScripts(a, b) && n <= |a|
    ensures SuccessRows(cfg, history, a, n) == SuccessRows(cfg, history, b, n)
  {
    if n == 0 {
    } else {
      SameSuccessRows(cfg, history, a, b, n - 1);
    }
  }

  /** Script k has been run, after those before it in the batch. */
  ghost predicate Reached(cfg: Config, start: World, batch: seq<Script>, k: nat, w: World)
    requires k <= |batch|
  {
    Finished(w.effects) == Finished(start.effects) + Names(batch)[..k]
        && w.history == SuccessRows(cfg, start.history, batch, k)
  }

  lemma ReachedNext(cfg: Config, start: World, batch: seq<Script>, k: nat, w: World, next: World)
    requires k < |batch| && Reached(cfg, start, batch, k, w)
    requires next.effects == w.effects + [Done(batch[k].filename)]
    requires next.history == if cfg.skipHistory then w.history
        else w.history[batch[k].filename := Row(Some(batch[k].checksum), true, true)]
    ensures Reached(cfg, start, batch, k + 1, next)
  {
    FinishedSnoc(w.effects, Done(batch[k].filename));
    assert Names(batch)[..k + 1] == Names(batch)[..k] + [batch[k].filename];
  }

  /** The scripts up to the failure completed and are recorded. The one that failed did not
      complete, unless it was only its row that could not be written. */
  ghost predicate Ended(cfg: Config, env: Env, start: World, batch: seq<Script>, r: Ran) {
    && SameScripts(r.batch, batch)
    && (r.result.Success? ==> Reached(cfg, start, batch, |batch|, r.world))
    && (r.result.Failure? ==>
       0 <= r.result.stoppedAt < |batch| && EndedAt(cfg, env, start, batch, r.world, r.result.stoppedAt))
  }

  ghost predicate EndedAt(cfg: Config, env: Env, start: World, batch: seq<Script>, w: World, at: nat)
    requires at < |batch|
  {
    && w.history == SuccessRows(cfg, start.history, batch, at)
    && (Finished(w.effects) == Finished(start.effects) + Names(batch)[..at]
        || (WriteFailed(env) && Finished(w.effects) == Finished(start.effects) + Names(batch)[..at + 1]))
  }

  ghost predicate WriteFailed(env: Env) {
    exists k :: env.write(k) != Fine
  }

  lemma SameNames(a: seq<Script>, b: seq<Script>)
    requires SameScripts(a, b)
    ensures Names(a) == Names(b)
  {
  }

  lemma EndedSame(cfg: Config, env: Env, start: World, a: seq<Script>, b: seq<Script>, r: Ran)
    requires SameScripts(a, b) && Ended(cfg, env, start, a, r)
    ensures Ended(cfg, env, start, b, r)
  {
    SameNames(a, b);
    match r.result
    case Success => SameSuccessRows(cfg, start.history, a, b, |a|);
    case Failure(at, _) => SameSuccessRows(cfg, start.history, a, b, at);
  }

  lemma ReachedSame(cfg: Config, start: World, a: seq<Script>, b: seq<Script>, k: nat, w: World)
    requires SameScripts(a, b) && k <= |a| && Reached(cfg, start, a, k, w)
    ensures Reached(cfg, start, b, k, w)
  {
    SameNames(a, b);
    SameSuccessRows(cfg, start.history, a, b, k);
  }

  lemma StopsAt(cfg: Config, env: Env, w: World, batch: seq<Script>, i: nat)
    requires i < |batch|
    requires env.open(w.step) != Fine || env.exec(w.step + 1) != Fine
        || (!cfg.skipHistory && env.write(w.step + 2) != Fine)
    ensures var r := RunScripts(cfg, env, w, batch, i);
      && r.result.Failure? && r.result.stoppedAt == i && r.world.history == w.history
      && (Finished(r.world.effects) == Finished(w.effects)
          || (WriteFailed(env) && Finished(r.world.effects) == Finished(w.effects) + [batch[i].filename]))
  {
    FinishedSnoc(w.effects, Partial(batch[i].filename));
    FinishedSnoc(w.effects, Done(batch[i].filename));
  }

  lemma FailsAtOnce(cfg: Config, env: Env, start: World, w: World, batch: seq<Script>, i: nat)
    requires i < |batch| && Reached(cfg, start, batch, i, w)
    requires env.open(w.step) != Fine || env.exec(w.step + 1) != Fine
        || (!cfg.skipHistory && env.write(w.step + 2) != Fine)
    ensures Ended(cfg, env, start, batch, RunScripts(cfg, env, w, batch, i))
  {
    RunScriptsStops(cfg, env, w, batch, i);
    StopsAt(cfg, env, w, batch, i);
    assert Names(batch)[..i + 1] == Names(batch)[..i] + [batch[i].filename];
  }

  lemma {:induction false} ScriptsEnd(cfg: Config, env: Env, start: World, w: World, batch: seq<Script>, i: nat)
    requires i <= |batch| && Reached(cfg, start, batch, i, w)
    ensures Ended(cfg, env, start, batch, RunScripts(cfg, env, w, batch, i))
    decreases |batch| - i
  {
    if i < |batch| {
      var m := batch[i];
      if env.open(w.step) != Fine || env.exec(w.step + 1) != Fine
          || (!cfg.skipHistory && env.write(w.step + 2) != Fine) {
        FailsAtOnce(cfg, env, start, w, batch, i);
      } else {
        var next := batch[i := m.(started := true, success := true)];
        var done := Tick(Tick(w)).(effects := w.effects + [Done(m.filename)]);
        var after := if cfg.skipHistory then done
                     else Tick(done).(history := done.history[m.filename := Row(Some(m.checksum), true, true)]);
        ReachedNext(cfg, start, batch, i, w, after);
        ReachedSame(cfg, start, batch, next, i + 1, after);
        ScriptsEnd(cfg, env, start, after, next, i + 1);
        EndedSame(cfg, env, start, next, batch, RunScripts(cfg, env, after, next, i + 1));
      }
    }
  }

  // ----- one attempt -----

  predicate SameState(a: World, b: World) {
    Finished(a.effects) == Finished(b.effects) && a.history == b.history
  }

  /** No write to the history table fails, or the batch is a transaction. */
  ghost predicate Guarded(cfg: Config, env: Env, batch: seq<Script>)
    requires batch != []
  {
    IsTx(cfg, batch) || !WriteFailed(env)
  }

  /** A transaction that fails leaves nothing; a script outside one leaves no record either. */
  lemma RunEnds(cfg: Config, env: Env, w: World, batch: seq<Script>)
    requires batch != [] && Guarded(cfg, env, batch)
    ensures var r := Run(cfg, env, w, batch);
      && SameScripts(r.batch, batch)
      && (r.result.Success? ==> Reached(cfg, w, batch, |batch|, r.world))
      && (r.result.Failure? ==> SameState(w, r.world) && -1 <= r.result.stoppedAt < |batch|)
      && (r.result.Failure? && IsTx(cfg, batch) ==> r.world.effects == w.effects)
  {
    RunStops(cfg, env, w, batch);
    assert Names(batch)[..0] == [];
    if IsTx(cfg, batch) {
      ScriptsEnd(cfg, env, w, Tick(w), batch, 0);
    } else {
      ScriptsEnd(cfg, env, w, w, batch, 0);
      assert Names(batch)[..0] == [] && |batch| == 1;
    }
  }

  // ----- all attempts -----

  /** The row says that one of the first n scripts has failed, with the checksum that it has. */
  ghost predicate SaysFailed(row: Row, batch: seq<Script>, n: nat, f: string) {
    !row.success && exists k :: 0 <= k < n && k < |batch| && batch[k].filename == f
                                && row.checksum == Some(batch[k].checksum)
  }

  /** The history with the first n scripts of the batch marked as failed, and no other row changed. */
  ghost predicate Marked(history: map<string, Row>, batch: seq<Script>, n: nat, after: map<string, Row>)
    requires n <= |batch|
  {
    && (forall f {:trigger f in after} :: f in Names(batch)[..n] ==> f in after && SaysFailed(after[f], batch, n, f))
    && (forall f {:trigger f in after} {:trigger f in history} :: f !in Names(batch)[..n] ==>
          (f in after <==> f in history) && (f in after ==> after[f] == history[f]))
  }

  lemma {:induction false} FailureRowsMark(history: map<string, Row>, batch: seq<Script>, n: nat)
    requires n <= |batch|
    ensures Marked(history, batch, n, FailureRows(history, batch, n))
  {
    if n == 0 {
    } else {
      FailureRowsMark(history, batch, n - 1);
      var before, after := FailureRows(history, batch, n - 1), FailureRows(history, batch, n);
      assert Names(batch)[..n] == Names(batch)[..n - 1] + [batch[n - 1].filename];
      forall f | f in Names(batch)[..n] ensures f in after && SaysFailed(after[f], batch, n, f) {
        if f == batch[n - 1].filename {
          assert after[f].checksum == Some(batch[n - 1].checksum);
        } else {
          var k :| 0 <= k < n - 1 && batch[k].filename == f && before[f].checksum == Some(batch[k].checksum);
        }
      }
    }
  }

  /** The history after giving up. */
  ghost predicate GivenUp(cfg: Config, env: Env, history: map<string, Row>, batch: seq<Script>, stoppedAt: int,
                          after: World)
    requires stoppedAt < |batch|
  {
    if stoppedAt < 0 || cfg.skipHistory then after.history == history
    else
      && after.step > 0
      && if env.write(after.step - 1) == Fine then Marked(history, batch, stoppedAt + 1, after.history)
         else after.history == history
  }

  /** What a batch that has failed leaves in the history: its last failure decides. Lock
      timeouts that are used up, and failures before the first script, leave no mark. */
  ghost predicate FailureRecorded(cfg: Config, env: Env, w: World, batch: seq<Script>, t: Tried, isRetryable: bool) {
    && t.last.Failure? && -1 <= t.last.stoppedAt < |batch|
    && (t.finish == Crashed <==> isRetryable && cfg.knowsTimeouts && t.last == Failure(-1, true))
    && (isRetryable && cfg.knowsTimeouts && t.last.timeout ==>
          t.world.history == w.history && (t.finish == Stopped ==> t.attempts >= cfg.maxAttempts))
    && (!(isRetryable && cfg.knowsTimeouts && t.last.timeout) ==>
          GivenUp(cfg, env, w.history, batch, t.last.stoppedAt, t.world))
  }

  lemma UndoFinishesNothing(cfg: Config, env: Env, w: World, filename: string)
    ensures SameState(w, Undo(cfg, env, w, filename))
  {
    var file := UndoFile(filename);
    FinishedSnoc(w.effects, Undone(file));
    FinishedSnoc(w.effects, Partial(file));
  }

  lemma Records(cfg: Config, env: Env, w: World, batch: seq<Script>, stoppedAt: int)
    requires -1 <= stoppedAt < |batch|
    ensures Record(cfg, env, w, batch, stoppedAt).effects == w.effects
    ensures GivenUp(cfg, env, w.history, batch, stoppedAt, Record(cfg, env, w, batch, stoppedAt))
  {
    if 0 <= stoppedAt {
      FailureRowsMark(w.history, batch, stoppedAt + 1);
    }
  }

  lemma GivesUp(cfg: Config, env: Env, w: World, batch: seq<Script>, stoppedAt: int, isRetryable: bool)
    requires batch != [] && -1 <= stoppedAt < |batch|
    ensures var after := GiveUp(cfg, env, w, batch, stoppedAt, isRetryable);
      && Finished(after.effects) == Finished(w.effects)
      && (isRetryable ==> after.effects == w.effects)
      && GivenUp(cfg, env, w.history, batch, stoppedAt, after)
  {
    UndoFinishesNothing(cfg, env, w, batch[0].filename);
    Records(cfg, env, w, batch, stoppedAt);
    Records(cfg, env, Undo(cfg, env, w, batch[0].filename), batch, stoppedAt);
  }

  /** All scripts complete and are recorded, or none do. */
  ghost predicate AllOrNothing(cfg: Config, env: Env, w: World, batch: seq<Script>, t: Tried, isRetryable: bool)
    requires batch != []
  {
    && (t.finish == Completed ==> Reached(cfg, w, batch, |batch|, t.world))
    && (t.finish != Completed ==>
       Finished(t.world.effects) == Finished(w.effects) && FailureRecorded(cfg, env, w, batch, t, isRetryable))
    && (t.finish != Completed && IsTx(cfg, batch) ==> t.world.effects == w.effects)
  }

  lemma MarkedSame(history: map<string, Row>, a: seq<Script>, b: seq<Script>, n: nat, after: map<string, Row>)
    requires SameScripts(a, b) && n <= |a| && Marked(history, a, n, after)
    ensures Marked(history, b, n, after)
  {
    SameNames(a, b);
    forall f | f in Names(b)[..n] ensures f in after && SaysFailed(after[f], b, n, f) {
      assert SaysFailed(after[f], a, n, f);
      var k :| 0 <= k < n && k < |a| && a[k].filename == f && after[f].checksum == Some(a[k].checksum);
      assert b[k].filename == f && after[f].checksum == Some(b[k].checksum);
    }
  }

  lemma MarkedLonger(history: map<string, Row>, a: seq<Script>, b: seq<Script>, n: nat, after: map<string, Row>)
    requires a <= b && n <= |a| && Marked(history, a, n, after)
    ensures Marked(history, b, n, after)
  {
    assert Names(a)[..n] == Names(b)[..n];
    forall f | f in Names(b)[..n] ensures f in after && SaysFailed(after[f], b, n, f) {
      assert SaysFailed(after[f], a, n, f);
      var k :| 0 <= k < n && k < |a| && a[k].filename == f && after[f].checksum == Some(a[k].checksum);
      assert b[k] == a[k];
    }
  }

  lemma GivenUpSame(cfg: Config, env: Env, history: map<string, Row>, a: seq<Script>, b: seq<Script>, stoppedAt: int,
                    after: World)
    requires SameScripts(a, b) && -1 <= stoppedAt < |a| && GivenUp(cfg, env, history, a, stoppedAt, after)
    ensures GivenUp(cfg, env, history, b, stoppedAt, after)
  {
    if stoppedAt >= 0 && !cfg.skipHistory && env.write(after.step - 1) == Fine {
      MarkedSame(history, a, b, stoppedAt + 1, after.history);
    }
  }

  lemma FailureRecordedSame(cfg: Config, env: Env, v: World, w: World, a: seq<Script>, b: seq<Script>, t: Tried,
                            isRetryable: bool)
    requires SameScripts(a, b) && v.history == w.history && FailureRecorded(cfg, env, v, a, t, isRetryable)
    ensures FailureRecorded(cfg, env, w, b, t, isRetryable)
  {
    if !(isRetryable && cfg.knowsTimeouts && t.last.timeout) {
      GivenUpSame(cfg, env, v.history, a, b, t.last.stoppedAt, t.world);
    }
  }

  lemma AllOrNothingSame(cfg: Config, env: Env, v: World, w: World, a: seq<Script>, b: seq<Script>, t: Tried,
                         isRetryable: bool)
    requires a != [] && SameScripts(a, b) && SameState(v, w) && (IsTx(cfg, a) ==> v.effects == w.effects)
    requires AllOrNothing(cfg, env, v, a, t, isRetryable)
    ensures AllOrNothing(cfg, env, w, b, t, isRetryable)
  {
    SameNames(a, b);
    if t.finish == Completed {
      SameSuccessRows(cfg, v.history, a, b, |a|);
    } else {
      FailureRecordedSame(cfg, env, v, w, a, b, t, isRetryable);
    }
  }

  /** The attempt is followed by another. */
  predicate TriesAgain(cfg: Config, r: Ran, attempts: nat, isRetryable: bool) {
    r.result.Failure? && r.result.stoppedAt >= 0 && isRetryable && cfg.knowsTimeouts && r.result.timeout
        && attempts + 1 < cfg.maxAttempts
  }

  lemma GivenUpEnds(cfg: Config, env: Env, w: World, batch: seq<Script>, r: Ran, attempts: nat, isRetryable: bool)
    requires batch != [] && SameScripts(r.batch, batch) && r.result.Failure? && -1 <= r.result.stoppedAt < |batch|
    requires SameState(w, r.world) && (IsTx(cfg, batch) ==> isRetryable && r.world.effects == w.effects)
    requires !(isRetryable && cfg.knowsTimeouts && r.result.timeout)
    ensures AllOrNothing(cfg, env, w, batch,
              Tried(GiveUp(cfg, env, r.world, r.batch, r.result.stoppedAt, isRetryable), attempts + 1, Stopped,
                    r.result), isRetryable)
  {
    var after := GiveUp(cfg, env, r.world, r.batch, r.result.stoppedAt, isRetryable);
    GivesUp(cfg, env, r.world, r.batch, r.result.stoppedAt, isRetryable);
    GivenUpSame(cfg, env, w.history, r.batch, batch, r.result.stoppedAt, after);
  }

  lemma LastTryEnds(cfg: Config, env: Env, w: World, batch: seq<Script>, attempts: nat, isRetryable: bool)
    requires batch != [] && Guarded(cfg, env, batch) && (IsTx(cfg, batch) ==> isRetryable)
    requires !TriesAgain(cfg, Run(cfg, env, w, batch), attempts, isRetryable)
    ensures AllOrNothing(cfg, env, w, batch, Retry(cfg, env, w, batch, attempts, isRetryable), isRetryable)
  {
    RunEnds(cfg, env, w, batch);
    var r := Run(cfg, env, w, batch);
    if r.result.Failure? && !(isRetryable && cfg.knowsTimeouts && r.result.timeout) {
      GivenUpEnds(cfg, env, w, batch, r, attempts, isRetryable);
    }
  }

  lemma {:induction false} RetryEnds(cfg: Config, env: Env, w: World, batch: seq<Script>, attempts: nat,
                                     isRetryable: bool)
    requires batch != [] && Guarded(cfg, env, batch) && (IsTx(cfg, batch) ==> isRetryable)
    ensures AllOrNothing(cfg, env, w, batch, Retry(cfg, env, w, batch, attempts, isRetryable), isRetryable)
    decreases if cfg.maxAttempts > attempts then cfg.maxAttempts - attempts else 0
  {
    var r := Run(cfg, env, w, batch);
    if TriesAgain(cfg, r, attempts, isRetryable) {
      RunEnds(cfg, env, w, batch);
      RetryEnds(cfg, env, r.world, r.batch, attempts + 1, isRetryable);
      AllOrNothingSame(cfg, env, r.world, w, r.batch, batch,
                       Retry(cfg, env, r.world, r.batch, attempts + 1, isRetryable), isRetryable);
    } else {
      LastTryEnds(cfg, env, w, batch, attempts, isRetryable);
    }
  }

  /** A batch ends in one of two ways: every script has completed and has a row that says so;
      or none has, and the history marks the scripts up to the failure as failed, if anything. */
  lemma BatchIsAllOrNothing(cfg: Config, env: Env, w: World, batch: seq<Script>)
    requires batch != [] && Guarded(cfg, env, batch)
    ensures AllOrNothing(cfg, env, w, batch, RunWithRetry(cfg, env, w, batch), IsTx(cfg, batch)
        || cfg.isStatement(batch[0].filename))
  {
    if IsTx(cfg, batch) {
      RetryEnds(cfg, env, w, batch, 0, true);
    } else if env.open(w.step) == Fine {
      RetryEnds(cfg, env, Tick(w), batch, 0, cfg.isStatement(batch[0].filename));
      AllOrNothingSame(cfg, env, Tick(w), w, batch, batch,
                       Retry(cfg, env, Tick(w), batch, 0, cfg.isStatement(batch[0].filename)),
                           cfg.isStatement(batch[0].filename));
    }
  }

  /** A batch is tried at most as often as the settings allow, and at least once. */
  lemma {:induction false} AttemptsAreBounded(cfg: Config, env: Env, w: World, batch: seq<Script>, attempts: nat,
                                              isRetryable: bool)
    requires batch != []
    ensures var t := Retry(cfg, env, w, batch, attempts, isRetryable);
      attempts < t.attempts && (t.attempts == attempts + 1 || t.attempts <= cfg.maxAttempts)
    ensures !isRetryable || !cfg.knowsTimeouts ==>
        Retry(cfg, env, w, batch, attempts, isRetryable).attempts == attempts + 1
    decreases if cfg.maxAttempts > attempts then cfg.maxAttempts - attempts else 0
  {
    RunStops(cfg, env, w, batch);
    var r := Run(cfg, env, w, batch);
    if r.result.Failure? && r.result.timeout && r.result.stoppedAt >= 0 && isRetryable && cfg.knowsTimeouts
        && attempts + 1 < cfg.maxAttempts {
      AttemptsAreBounded(cfg, env, r.world, r.batch, attempts + 1, isRetryable);
    }
  }
}
