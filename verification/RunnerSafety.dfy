/** Whole runs, one after another: which scripts they pick, how they group them, and that no
    script completes twice. */
module RunnerSafety {
  import opened Common
  import opened MigrationRunner
  import opened RunnerBatches

  // ----- which scripts a run picks -----

  /** What a run makes of one script: nothing if it has been run as it is. */
  function Picked(cfg: Config, m: Script): Option<Script> {
    if !IsRepeatable(m.filename) then if m.valid && m.success then None else Some(m)
    else if cfg.checksum(m.filename) == m.checksum && m.valid && m.success then None
    else Some(m.(checksum := cfg.checksum(m.filename)))
  }

  function Pending(cfg: Config, scripts: seq<Script>): (pending: seq<Script>)
    ensures |pending| <= |scripts|
  {
    if scripts == [] then []
    else
      Pending(cfg, scripts[..|scripts| - 1])
      + (match Picked(cfg, scripts[|scripts| - 1]) case None => [] case Some(m) => [m])
  }

  lemma PendingNext(cfg: Config, scripts: seq<Script>, i: nat)
    requires i < |scripts|
    ensures Pending(cfg, scripts[..i + 1])
         == Pending(cfg, scripts[..i]) + (match Picked(cfg, scripts[i]) case None => [] case Some(m) => [m])
  {
    assert scripts[..i + 1][..i] == scripts[..i];
  }

  lemma {:induction false} PendingPrefix(cfg: Config, scripts: seq<Script>, i: nat)
    requires i <= |scripts|
    ensures |Pending(cfg, scripts[..i])| <= |Pending(cfg, scripts)|
    ensures Pending(cfg, scripts)[..|Pending(cfg, scripts[..i])|] == Pending(cfg, scripts[..i])
    decreases |scripts| - i
  {
    if i == |scripts| {
      assert scripts[..i] == scripts;
    } else {
      PendingPrefix(cfg, scripts, i + 1);
      PendingNext(cfg, scripts, i);
    }
  }

  // ----- batches -----

  function Concat(calls: seq<seq<Script>>): seq<Script> {
    if calls == [] then [] else Concat(calls[..|calls| - 1]) + calls[|calls| - 1]
  }

  lemma ConcatSnoc(calls: seq<seq<Script>>, batch: seq<Script>)
    ensures Concat(calls + [batch]) == Concat(calls) + batch
  {
    assert (calls + [batch])[..|calls|] == calls;
  }

  /** Two scripts of which the first must not be in the same batch as the second. */
  predicate Splits(cfg: Config, a: Script, b: Script) {
    cfg.isMySql || IsSpecial(a.filename) || IsSpecial(b.filename)
  }

  /** A special script is alone, and so is every script for MySQL. */
  predicate GoodBatch(cfg: Config, batch: seq<Script>) {
    batch != [] && (|batch| > 1 ==> !cfg.isMySql && forall k :: 0 <= k < |batch| ==> !IsSpecial(batch[k].filename))
  }

  /** The batches are good, and none could have been joined to the next. */
  predicate GoodBatches(cfg: Config, calls: seq<seq<Script>>) {
    && (forall k :: 0 <= k < |calls| ==> GoodBatch(cfg, calls[k]))
    && (forall k :: 0 < k < |calls| ==> EndsBefore(cfg, calls[k - 1], calls[k]))
  }

  predicate EndsBefore(cfg: Config, a: seq<Script>, b: seq<Script>) {
    a != [] && b != [] && Splits(cfg, a[|a| - 1], b[0])
  }

  lemma GoodBatchesSnoc(cfg: Config, calls: seq<seq<Script>>, batch: seq<Script>)
    requires GoodBatches(cfg, calls) && GoodBatch(cfg, batch)
    requires (calls != [] ==> EndsBefore(cfg, calls[|calls| - 1], batch))
    ensures GoodBatches(cfg, calls + [batch])
  {
  }

  // ----- how far a run gets -----

  /** The runs succeed for the first n pending scripts, and perhaps the next k are marked as failed. */
  ghost predicate Progress(cfg: Config, start: World, pending: seq<Script>, n: nat, k: nat, now: World)
    requires n + k <= |pending|
  {
    && Finished(now.effects) == Finished(start.effects) + Names(pending)[..n]
    && (if k == 0 then now.history == SuccessRows(cfg, start.history, pending, n)
        else Marked(SuccessRows(cfg, start.history, pending, n), pending[n..], k, now.history))
  }

  /** How a run ends: with everything done, or somewhere in between. */
  ghost predicate RunEnded(cfg: Config, start: World, pending: seq<Script>, m: Migrated) {
    && Concat(m.calls) <= pending && (m.ok ==> Concat(m.calls) == pending)
    && GoodBatches(cfg, m.calls)
    && GotSomewhere(cfg, start, pending, m.world, m.ok)
  }

  ghost predicate GotSomewhere(cfg: Config, start: World, pending: seq<Script>, now: World, ok: bool) {
    exists n, k :: 0 <= n && 0 <= k && n + k <= |pending| && Progress(cfg, start, pending, n, k, now)
                   && (ok ==> n == |pending| && k == 0)
  }

  lemma {:induction false} SuccessRowsPrefix(cfg: Config, history: map<string, Row>, a: seq<Script>, b: seq<Script>,
                                             n: nat)
    requires n <= |a| && n <= |b| && a[..n] == b[..n]
    ensures SuccessRows(cfg, history, a, n) == SuccessRows(cfg, history, b, n)
  {
    if n == 0 {
    } else {
      assert a[n - 1] == a[..n][n - 1] == b[..n][n - 1] == b[n - 1];
      assert a[..n - 1] == a[..n][..n - 1] && b[..n - 1] == b[..n][..n - 1];
      SuccessRowsPrefix(cfg, history, a, b, n - 1);
    }
  }

  lemma {:induction false} SuccessRowsConcat(cfg: Config, history: map<string, Row>, a: seq<Script>, b: seq<Script>,
                                             n: nat)
    requires n <= |b|
    ensures SuccessRows(cfg, history, a + b, |a| + n) == SuccessRows(cfg, SuccessRows(cfg, history, a, |a|), b, n)
  {
    if n == 0 {
      SuccessRowsPrefix(cfg, history, a + b, a, |a|);
    } else {
      SuccessRowsConcat(cfg, history, a, b, n - 1);
    }
  }

  lemma NamesConcat(a: seq<Script>, b: seq<Script>)
    ensures Names(a + b) == Names(a) + Names(b)
  {
  }

  predicate Transactional(cfg: Config, filename: string) {
    (!HasSuffix(filename, ".txoff.sql") && !cfg.isMySql) || HasSuffix(filename, ".tx.sql")
  }

  /** No write to the history table fails, or every script runs in a transaction. */
  ghost predicate Safe(cfg: Config, env: Env, files: seq<string>) {
    !WriteFailed(env) || forall k :: 0 <= k < |files| ==> Transactional(cfg, files[k])
  }

  lemma {:induction false} PendingIsSafe(cfg: Config, env: Env, scripts: seq<Script>)
    requires Safe(cfg, env, Names(scripts))
    ensures Safe(cfg, env, Names(Pending(cfg, scripts)))
  {
    if scripts == [] {
    } else {
      var init := scripts[..|scripts| - 1];
      assert forall k :: 0 <= k < |init| ==> Names(init)[k] == Names(scripts)[k];
      PendingIsSafe(cfg, env, init);
      assert Names(scripts)[|scripts| - 1] == scripts[|scripts| - 1].filename;
    }
  }

  lemma BatchIsGuarded(cfg: Config, env: Env, before: seq<Script>, batch: seq<Script>)
    requires batch != [] && Safe(cfg, env, Names(before + batch))
    ensures Guarded(cfg, env, batch)
  {
    assert Names(before + batch)[|before|] == batch[0].filename;
  }

  // ----- running a batch in the middle of a run -----

  /** The scripts done so far have completed and are recorded. */
  ghost predicate AllDone(cfg: Config, start: World, done: seq<Script>, w: World) {
    Finished(w.effects) == Finished(start.effects) + Names(done)
        && w.history == SuccessRows(cfg, start.history, done, |done|)
  }

  lemma AllDoneNext(cfg: Config, start: World, w: World, done: seq<Script>, batch: seq<Script>, after: World)
    requires AllDone(cfg, start, done, w) && Reached(cfg, w, batch, |batch|, after)
    ensures AllDone(cfg, start, done + batch, after)
  {
    NamesConcat(done, batch);
    assert Names(batch)[..|batch|] == Names(batch);
    SuccessRowsConcat(cfg, start.history, done, batch, |batch|);
  }

  lemma AllDoneProgress(cfg: Config, start: World, w: World, done: seq<Script>, pending: seq<Script>)
    requires AllDone(cfg, start, done, w) && done <= pending
    ensures Progress(cfg, start, pending, |done|, 0, w)
  {
    assert pending[..|done|] == done && Names(pending)[..|done|] == Names(done);
    SuccessRowsPrefix(cfg, start.history, pending, done, |done|);
  }

  /** A batch that fails is as far as the run gets. */
  lemma FailureProgress(cfg: Config, start: World, w: World, done: seq<Script>, batch: seq<Script>,
                        pending: seq<Script>, k: nat, after: World)
    requires AllDone(cfg, start, done, w) && done + batch <= pending && 0 < k <= |batch|
    requires Finished(after.effects) == Finished(w.effects) && Marked(w.history, batch, k, after.history)
    ensures Progress(cfg, start, pending, |done|, k, after)
  {
    AllDoneProgress(cfg, start, w, done, pending);
    MarkedLonger(w.history, batch, pending[|done|..], k, after.history);
  }

  /** What is left of a failed batch. */
  lemma FailureLeaves(cfg: Config, env: Env, w: World, batch: seq<Script>, t: Tried, isRetryable: bool) returns (k: nat)
    requires FailureRecorded(cfg, env, w, batch, t, isRetryable)
    ensures k <= |batch|
    ensures if k == 0 then t.world.history == w.history else Marked(w.history, batch, k, t.world.history)
  {
    if t.world.history == w.history {
      k := 0;
    } else {
      k := t.last.stoppedAt + 1;
    }
  }

  // ----- a whole run -----

  lemma FlushEnds(cfg: Config, env: Env, start: World, w: World, queue: seq<Script>, calls: seq<seq<Script>>,
                  pending: seq<Script>)
    requires queue != [] && AllDone(cfg, start, Concat(calls), w) && Concat(calls) + queue <= pending
    requires GoodBatches(cfg, calls + [queue]) && Safe(cfg, env, Names(Concat(calls) + queue))
    ensures var f := Flush(cfg, env, w, queue, calls);
      && f.calls == calls + [queue]
      && (f.ok ==> AllDone(cfg, start, Concat(calls) + queue, f.world))
      && (!f.ok ==> RunEnded(cfg, start, pending, f))
  {
    BatchIsGuarded(cfg, env, Concat(calls), queue);
    BatchIsAllOrNothing(cfg, env, w, queue);
    ConcatSnoc(calls, queue);
    var t := RunWithRetry(cfg, env, w, queue);
    if t.finish == Completed {
      AllDoneNext(cfg, start, w, Concat(calls), queue, t.world);
    } else {
      var k := FailureLeaves(cfg, env, w, queue, t, IsTx(cfg, queue) || cfg.isStatement(queue[0].filename));
      if k == 0 {
        assert AllDone(cfg, start, Concat(calls), t.world);
        AllDoneProgress(cfg, start, t.world, Concat(calls), pending);
      } else {
        FailureProgress(cfg, start, w, Concat(calls), queue, pending, k, t.world);
      }
      assert Progress(cfg, start, pending, |Concat(calls)|, k, t.world);
    }
  }

  function WithQueue(calls: seq<seq<Script>>, queue: seq<Script>): seq<seq<Script>> {
    if queue == [] then calls else calls + [queue]
  }

  lemma WithoutQueue(cfg: Config, calls: seq<seq<Script>>, queue: seq<Script>)
    requires GoodBatches(cfg, WithQueue(calls, queue))
    ensures GoodBatches(cfg, calls)
  {
    if queue != [] {
      assert forall k :: 0 <= k < |calls| ==> (calls + [queue])[k] == calls[k];
    }
  }

  /** The scripts of the batches are done, those of the queue are next. */
  ghost predicate Between(cfg: Config, start: World, scripts: seq<Script>, i: nat, queue: seq<Script>,
                          calls: seq<seq<Script>>, w: World)
    requires i <= |scripts|
  {
    && Concat(calls) + queue == Pending(cfg, scripts[..i])
    && GoodBatches(cfg, WithQueue(calls, queue))
    && (queue == [] ==> calls == [])
    && AllDone(cfg, start, Concat(calls), w)
  }

  lemma QueuedIsSafe(cfg: Config, env: Env, scripts: seq<Script>, i: nat)
    requires i <= |scripts| && Safe(cfg, env, Names(scripts))
    ensures Safe(cfg, env, Names(Pending(cfg, scripts[..i]))) && Pending(cfg, scripts[..i]) <= Pending(cfg, scripts)
  {
    PendingPrefix(cfg, scripts, i);
    PendingIsSafe(cfg, env, scripts);
    var all, some := Names(Pending(cfg, scripts)), Names(Pending(cfg, scripts[..i]));
    assert forall k :: 0 <= k < |some| ==> some[k] == all[k];
  }

  /** A run that ends between two batches. */
  lemma StopsHere(cfg: Config, env: Env, start: World, scripts: seq<Script>, i: nat, queue: seq<Script>,
                  calls: seq<seq<Script>>, w: World, ok: bool)
    requires i <= |scripts| && Between(cfg, start, scripts, i, queue, calls, w) && Safe(cfg, env, Names(scripts))
    requires ok ==> queue == [] && i == |scripts|
    ensures RunEnded(cfg, start, Pending(cfg, scripts), Migrated(w, calls, ok))
  {
    QueuedIsSafe(cfg, env, scripts, i);
    AllDoneProgress(cfg, start, w, Concat(calls), Pending(cfg, scripts));
    WithoutQueue(cfg, calls, queue);
    assert ok ==> scripts[..i] == scripts;
  }

  lemma LastFlushEnds(cfg: Config, env: Env, start: World, scripts: seq<Script>, queue: seq<Script>,
                      calls: seq<seq<Script>>, w: World)
    requires Between(cfg, start, scripts, |scripts|, queue, calls, w) && Safe(cfg, env, Names(scripts))
    ensures RunEnded(cfg, start, Pending(cfg, scripts), Flush(cfg, env, w, queue, calls))
  {
    var pending := Pending(cfg, scripts);
    assert scripts[..|scripts|] == scripts;
    QueuedIsSafe(cfg, env, scripts, |scripts|);
    if queue == [] {
      StopsHere(cfg, env, start, scripts, |scripts|, queue, calls, w, true);
    } else {
      FlushEnds(cfg, env, start, w, queue, calls, pending);
      ConcatSnoc(calls, queue);
      var f := Flush(cfg, env, w, queue, calls);
      if f.ok {
        AllDoneProgress(cfg, start, f.world, pending, pending);
        assert Progress(cfg, start, pending, |pending|, 0, f.world);
      }
    }
  }

  lemma LongerQueue(cfg: Config, m: Script, queue: seq<Script>, calls: seq<seq<Script>>)
    requires GoodBatches(cfg, WithQueue(calls, queue)) && (queue == [] ==> calls == [])
    requires queue == [] || !MustFlush(cfg, queue, m)
    ensures GoodBatches(cfg, WithQueue(calls, queue + [m]))
  {
    if queue == [] {
      assert queue + [m] == [m];
    } else {
      WithoutQueue(cfg, calls, queue);
      var before := calls + [queue];
      assert GoodBatch(cfg, before[|calls|]);
      assert |calls| > 0 ==> EndsBefore(cfg, before[|calls| - 1], before[|calls|]);
      GoodBatchesSnoc(cfg, calls, queue + [m]);
    }
  }

  /** A script joins the queue. */
  lemma Joins(cfg: Config, start: World, scripts: seq<Script>, i: nat, m: Script, queue: seq<Script>,
              calls: seq<seq<Script>>, w: World)
    requires i < |scripts| && Between(cfg, start, scripts, i, queue, calls, w) && Picked(cfg, scripts[i]) == Some(m)
    requires queue == [] || !MustFlush(cfg, queue, m)
    ensures Between(cfg, start, scripts, i + 1, queue + [m], calls, w)
  {
    PendingNext(cfg, scripts, i);
    assert Concat(calls) + (queue + [m]) == Concat(calls) + queue + [m];
    LongerQueue(cfg, m, queue, calls);
  }

  /** A script is left out. */
  lemma Skips(cfg: Config, start: World, scripts: seq<Script>, i: nat, queue: seq<Script>, calls: seq<seq<Script>>,
              w: World, next: World)
    requires i < |scripts| && Between(cfg, start, scripts, i, queue, calls, w) && Picked(cfg, scripts[i]) == None
    requires next.effects == w.effects && next.history == w.history
    ensures Between(cfg, start, scripts, i + 1, queue, calls, next)
  {
    PendingNext(cfg, scripts, i);
  }

  /** A script starts a new queue once the old one has been run. */
  lemma StartsAnew(cfg: Config, start: World, scripts: seq<Script>, i: nat, m: Script, queue: seq<Script>,
                   calls: seq<seq<Script>>, after: World)
    requires i < |scripts| && queue != [] && Picked(cfg, scripts[i]) == Some(m) && MustFlush(cfg, queue, m)
    requires Concat(calls) + queue == Pending(cfg, scripts[..i]) && GoodBatches(cfg, calls + [queue])
    requires AllDone(cfg, start, Concat(calls) + queue, after)
    ensures Between(cfg, start, scripts, i + 1, [m], calls + [queue], after)
  {
    PendingNext(cfg, scripts, i);
    ConcatSnoc(calls, queue);
    assert GoodBatch(cfg, (calls + [queue])[|calls|]);
    GoodBatchesSnoc(cfg, calls + [queue], [m]);
  }

  lemma RunFromStep(cfg: Config, env: Env, w: World, scripts: seq<Script>, i: nat, queue: seq<Script>,
                    calls: seq<seq<Script>>)
    requires i < |scripts|
    ensures RunFrom(cfg, env, w, scripts, i, queue, calls) ==
            var next := if IsRepeatable(scripts[i].filename) then Tick(w) else w;
            if IsRepeatable(scripts[i].filename) && env.open(w.step) != Fine then Migrated(Tick(w), calls, false)
            else
              match Picked(cfg, scripts[i])
              case None => RunFrom(cfg, env, next, scripts, i + 1, queue, calls)
              case Some(m) => Enqueue(cfg, env, next, scripts, i, m, queue, calls)
  {
  }

  lemma {:induction false} RunFromEnds(cfg: Config, env: Env, start: World, scripts: seq<Script>, w: World, i: nat,
                                       queue: seq<Script>, calls: seq<seq<Script>>)
    requires i <= |scripts| && Between(cfg, start, scripts, i, queue, calls, w) && Safe(cfg, env, Names(scripts))
    ensures RunEnded(cfg, start, Pending(cfg, scripts), RunFrom(cfg, env, w, scripts, i, queue, calls))
    decreases |scripts| - i
  {
    if i == |scripts| {
      LastFlushEnds(cfg, env, start, scripts, queue, calls, w);
    } else {
      var next := if IsRepeatable(scripts[i].filename) then Tick(w) else w;
      RunFromStep(cfg, env, w, scripts, i, queue, calls);
      if IsRepeatable(scripts[i].filename) && env.open(w.step) != Fine {
        StopsHere(cfg, env, start, scripts, i, queue, calls, Tick(w), false);
      } else {
        match Picked(cfg, scripts[i])
        case None =>
          Skips(cfg, start, scripts, i, queue, calls, w, next);
          RunFromEnds(cfg, env, start, scripts, next, i + 1, queue, calls);
        case Some(picked) =>
          EnqueueEnds(cfg, env, start, scripts, next, i, picked, queue, calls);
      }
    }
  }

  lemma {:induction false} EnqueueEnds(cfg: Config, env: Env, start: World, scripts: seq<Script>, w: World, i: nat,
                                       m: Script, queue: seq<Script>, calls: seq<seq<Script>>)
    requires i < |scripts| && Between(cfg, start, scripts, i, queue, calls, w) && Safe(cfg, env, Names(scripts))
    requires Picked(cfg, scripts[i]) == Some(m)
    ensures RunEnded(cfg, start, Pending(cfg, scripts), Enqueue(cfg, env, w, scripts, i, m, queue, calls))
    decreases |scripts| - i, 0
  {
    if queue == [] || !MustFlush(cfg, queue, m) {
      Joins(cfg, start, scripts, i, m, queue, calls, w);
      RunFromEnds(cfg, env, start, scripts, w, i + 1, queue + [m], calls);
    } else {
      QueuedIsSafe(cfg, env, scripts, i);
      FlushEnds(cfg, env, start, w, queue, calls, Pending(cfg, scripts));
      var f := Flush(cfg, env, w, queue, calls);
      if f.ok {
        StartsAnew(cfg, start, scripts, i, m, queue, calls, f.world);
        RunFromEnds(cfg, env, start, scripts, f.world, i + 1, [m], f.calls);
      }
    }
  }

  /** A run works through its pending scripts in order. Its batches are these scripts, as few
      batches as the rules allow; all complete if it succeeds; if it does not, the first n
      complete and of the others at most the next few are marked as failed. */
  lemma MigrateEnds(cfg: Config, env: Env, w: World, files: seq<string>)
    requires Safe(cfg, env, files)
    ensures RunEnded(cfg, w, Pending(cfg, AllKnown(cfg, w.history, files)), Migrate(cfg, env, w, files))
  {
    var scripts := AllKnown(cfg, w.history, files);
    assert Names(scripts) == files;
    assert Names([])[..0] == [];
    assert Finished(w.effects) + [] == Finished(w.effects);
    RunFromEnds(cfg, env, w, scripts, w, 0, [], []);
  }
}
