/** The whole upload side: uploads run as jobs of the worker pool, while requests come, wait
    or give up, and the server is stopped. */
module Server {
  import opened Bytes
  import opened Nonce
  import opened Container
  import opened Streams
  import Pool
  import Upload

  datatype Source = Source(base: NonceBytes, data: seq<byte>, end: End)

  datatype State = State(pool: Pool.State, sources: map<Pool.Job, Source>, uploads: map<Pool.Job, Upload.State>)

  datatype Step =
    | Submit(job: Pool.Job, source: Source)
    | PoolStep(inner: Pool.Step)
    | UploadStep(job: Pool.Job, own: Upload.Step)

  function Start(size: nat): State { State(Pool.Start(size), map[], map[]) }

  predicate InHand(s: State, job: Pool.Job) { Pool.Running(job) in s.pool.workers }

  /** Steps of the goroutine that a job starts and does not wait for. */
  predicate Encrypting(u: Upload.Step) {
    u.WriteNext? || u.EncryptReturns? || u.CloseWithError? || u.DeferredClose?
  }

  /** A request may receive or give up at any time. The job moves while a worker has it in
      hand, and the worker is done with it when it has finished; the encrypting goroutine may
      move on after that. */
  predicate Enabled(s: State, step: Step) {
    match step
    case Submit(job, _) => job !in s.uploads && Pool.Enabled(s.pool, Pool.Submit(job))
    case PoolStep(p) =>
      Pool.Enabled(s.pool, p) && !p.Submit?
      && (p.Finish? ==> var job := s.pool.workers[p.w].job; job in s.uploads && s.uploads[job].job == Upload.Finished)
    case UploadStep(job, u) =>
      job in s.uploads && Upload.Enabled(s.uploads[job], u)
      && (InHand(s, job) || u.Receive? || u.Cancel? || (job in s.pool.started && Encrypting(u)))
  }

  function Next(a: Cipher, s: State, step: Step): State
    requires Enabled(s, step)
  {
    match step
    case Submit(job, src) =>
      State(Pool.Next(s.pool, Pool.Submit(job)), s.sources[job := src],
            s.uploads[job := Upload.Start(a, src.base, src.data, src.end)])
    case PoolStep(p) => s.(pool := Pool.Next(s.pool, p))
    case UploadStep(job, u) => s.(uploads := s.uploads[job := Upload.Next(s.uploads[job], u)])
  }

  ghost predicate Run(a: Cipher, s: State, steps: seq<Step>, t: State)
    decreases |steps|
  {
    if steps == [] then s == t
    else Enabled(s, steps[0]) && Run(a, Next(a, s, steps[0]), steps[1..], t)
  }

  ghost predicate Reachable(a: Cipher, size: nat, s: State) {
    exists steps :: Run(a, Start(size), steps, s)
  }

  ghost predicate UploadsInv(a: Cipher, s: State) {
    && s.sources.Keys == s.uploads.Keys
    && (forall j :: j in s.uploads ==>
          Upload.Reachable(a, s.sources[j].base, s.sources[j].data, s.sources[j].end, s.uploads[j]))
  }

  ghost predicate JobsInv(s: State) {
    && (forall j :: j in s.pool.queue || InHand(s, j) ==> j in s.uploads)
    && (forall j :: j in s.uploads ==> j in s.pool.accepted)
    && (forall j :: j in s.pool.finished ==> j in s.uploads && s.uploads[j].job == Upload.Finished)
  }

  /** Seen from the pool, and seen from each upload, the server's run is one of theirs; every
      upload has its job in the pool, and a job the pool is done with has finished. */
  ghost predicate Inv(a: Cipher, size: nat, s: State) {
    Pool.Reachable(size, s.pool) && UploadsInv(a, s) && JobsInv(s)
  }

  lemma SubmitInv(a: Cipher, size: nat, s: State, job: Pool.Job, src: Source)
    requires Inv(a, size, s) && Enabled(s, Submit(job, src))
    ensures Inv(a, size, Next(a, s, Submit(job, src)))
  {
    var p := Pool.ReachableNext(size, s.pool, Pool.Submit(job));
    Upload.StartReachable(a, src.base, src.data, src.end);
  }

  lemma PoolInv(a: Cipher, size: nat, s: State, step: Pool.Step)
    requires Inv(a, size, s) && Enabled(s, PoolStep(step))
    ensures Inv(a, size, Next(a, s, PoolStep(step)))
  {
    var p := Pool.ReachableNext(size, s.pool, step);
    forall j | j in p.queue || Pool.Running(j) in p.workers ensures j in s.uploads {
      Pool.NoNewJobs(s.pool, step, j);
    }
  }

  lemma UploadInv(a: Cipher, size: nat, s: State, job: Pool.Job, u: Upload.Step)
    requires Inv(a, size, s) && Enabled(s, UploadStep(job, u))
    ensures Inv(a, size, Next(a, s, UploadStep(job, u)))
  {
    var src := s.sources[job];
    var t := Upload.ReachableNext(a, src.base, src.data, src.end, s.uploads[job], u);
    if s.uploads[job].job == Upload.Finished { FinishedStays(s.uploads[job], u); }
    UploadJobs(a, s, job, u);
  }

  lemma FinishedStays(s: Upload.State, step: Upload.Step)
    requires Upload.Enabled(s, step) && s.job == Upload.Finished
    ensures Upload.Next(s, step).job == Upload.Finished
  {
  }

  lemma UploadJobs(a: Cipher, s: State, job: Pool.Job, u: Upload.Step)
    requires JobsInv(s) && Enabled(s, UploadStep(job, u))
    requires s.uploads[job].job == Upload.Finished ==> Upload.Next(s.uploads[job], u).job == Upload.Finished
    ensures JobsInv(Next(a, s, UploadStep(job, u)))
  {
    assert Next(a, s, UploadStep(job, u)).pool == s.pool;
  }

  lemma NextInv(a: Cipher, size: nat, s: State, step: Step)
    requires Inv(a, size, s) && Enabled(s, step)
    ensures Inv(a, size, Next(a, s, step))
  {
    match step
    case Submit(job, src) => SubmitInv(a, size, s, job, src);
    case PoolStep(p) => PoolInv(a, size, s, p);
    case UploadStep(job, u) => UploadInv(a, size, s, job, u);
  }

  lemma {:induction false} RunInv(a: Cipher, size: nat, s: State, steps: seq<Step>, t: State)
    requires Inv(a, size, s) && Run(a, s, steps, t)
    ensures Inv(a, size, t)
    decreases |steps|
  {
    if steps != [] {
      NextInv(a, size, s, steps[0]);
      RunInv(a, size, Next(a, s, steps[0]), steps[1..], t);
    }
  }

  lemma ReachableInv(a: Cipher, size: nat, s: State)
    requires Reachable(a, size, s)
    ensures Inv(a, size, s)
  {
    var steps :| Run(a, Start(size), steps, s);
    assert Pool.Run(Pool.Start(size), [], Pool.Start(size));
    RunInv(a, size, Start(size), steps, s);
  }

  /** No upload holds up another, and none waits for the pool but for a worker to take its job:
      with the job in hand all its steps are its own, a request is free at any time and the
      encrypting goroutine once it was started, and a worker ends a job as soon as the job has
      finished. */
  lemma NothingElseWaits(a: Cipher, size: nat, s: State, job: Pool.Job, u: Upload.Step, w: nat)
    requires Inv(a, size, s) && job in s.uploads
    ensures InHand(s, job) ==> (Enabled(s, UploadStep(job, u)) <==> Upload.Enabled(s.uploads[job], u))
    ensures u == Upload.Receive || u == Upload.Cancel ==>
              (Enabled(s, UploadStep(job, u)) <==> Upload.Enabled(s.uploads[job], u))
    ensures job in s.pool.started && s.uploads[job].encoder != Upload.Running ==>
              (s.uploads[job].encoder != Upload.Gone <==>
                 || Enabled(s, UploadStep(job, Upload.CloseWithError))
                 || Enabled(s, UploadStep(job, Upload.DeferredClose)))
    ensures !s.pool.panicked && w < |s.pool.workers| && s.pool.workers[w] == Pool.Running(job) ==>
              (Enabled(s, PoolStep(Pool.Finish(w))) <==> s.uploads[job].job == Upload.Finished)
    ensures !s.pool.panicked && w < |s.pool.workers| && s.pool.workers[w] == Pool.Idle && s.pool.queue != [] ==>
              Enabled(s, PoolStep(Pool.Take(w)))
  {
  }

  /** A new upload is accepted whenever the channel is open and has room. */
  lemma SubmitWaitsForRoom(a: Cipher, size: nat, s: State, job: Pool.Job, src: Source)
    requires Inv(a, size, s) && !s.pool.panicked && job !in s.uploads
    ensures Enabled(s, Submit(job, src)) <==> !s.pool.closed && |s.pool.queue| < 10 * size
    ensures Enabled(s, Submit(job, src)) ==>
              Next(a, s, Submit(job, src)).pool.queue == s.pool.queue + [job]
  {
    Pool.ReachableInv(size, s.pool);
  }

  // ---- Runs ----

  lemma {:induction false} RunConcat(a: Cipher, s: State, first: seq<Step>, t: State, second: seq<Step>, u: State)
    requires Run(a, s, first, t) && Run(a, t, second, u)
    ensures Run(a, s, first + second, u)
    decreases |first|
  {
    if first == [] {
      assert first + second == second;
    } else {
      assert (first + second)[1..] == first[1..] + second;
      RunConcat(a, Next(a, s, first[0]), first[1..], t, second, u);
    }
  }

  lemma ReachableRun(a: Cipher, size: nat, s: State, steps: seq<Step>, t: State)
    requires Reachable(a, size, s) && Run(a, s, steps, t)
    ensures Reachable(a, size, t)
  {
    var before :| Run(a, Start(size), before, s);
    RunConcat(a, Start(size), before, s, steps, t);
  }

  lemma ReachableNext(a: Cipher, size: nat, s: State, step: Step) returns (t: State)
    requires Reachable(a, size, s) && Enabled(s, step)
    ensures t == Next(a, s, step) && Reachable(a, size, t)
  {
    t := Next(a, s, step);
    assert Run(a, t, [], t) && [step][1..] == [];
    assert Run(a, s, [step], t);
    ReachableRun(a, size, s, [step], t);
  }

  // ---- The server comes to rest ----

  /** Steps taken inside the server; the others are new uploads and calls of Stop. */
  predicate Internal(step: Step) {
    step.UploadStep? || (step.PoolStep? && Pool.Internal(step.inner))
  }

  ghost predicate InternalRun(a: Cipher, s: State, steps: seq<Step>, t: State) {
    Run(a, s, steps, t) && forall i :: 0 <= i < |steps| ==> Internal(steps[i])
  }

  /** Nothing inside the server can move any more; new calls may still come. */
  ghost predicate Quiescent(s: State) {
    forall step :: Enabled(s, step) ==> !Internal(step)
  }

  ghost function Total(uploads: map<Pool.Job, Upload.State>): nat
    decreases |uploads|
  {
    if uploads == map[] then 0
    else
      var j :| j in uploads;
      Upload.Measure(uploads[j]) + Total(uploads - {j})
  }

  lemma {:induction false} TotalWithout(uploads: map<Pool.Job, Upload.State>, j: Pool.Job)
    requires j in uploads
    ensures Total(uploads) == Upload.Measure(uploads[j]) + Total(uploads - {j})
    decreases |uploads|
  {
    var k :| k in uploads && Total(uploads) == Upload.Measure(uploads[k]) + Total(uploads - {k});
    if k != j {
      TotalWithout(uploads - {k}, j);
      TotalWithout(uploads - {j}, k);
      assert uploads - {k} - {j} == uploads - {j} - {k};
    }
  }

  lemma TotalUpdate(uploads: map<Pool.Job, Upload.State>, j: Pool.Job, u: Upload.State)
    requires j in uploads
    ensures Total(uploads[j := u]) == Total(uploads) - Upload.Measure(uploads[j]) + Upload.Measure(u)
  {
    TotalWithout(uploads, j);
    TotalWithout(uploads[j := u], j);
    assert uploads[j := u] - {j} == uploads - {j};
  }

  /** Bounds the number of internal steps the server can still take. */
  ghost function Measure(s: State): nat { Pool.Measure(s.pool) + Total(s.uploads) }

  lemma InternalDecreases(a: Aead, size: nat, s: State, step: Step)
    requires Inv(a, size, s) && Enabled(s, step) && Internal(step)
    ensures Measure(Next(a, s, step)) < Measure(s)
  {
    match step
    case PoolStep(p) => Pool.InternalDecreases(s.pool, p);
    case UploadStep(job, u) =>
      var src, own := s.sources[job], s.uploads[job];
      Upload.ReachableInv(a, src.base, src.data, src.end, own);
      Upload.NextDecreases(own, u);
      TotalUpdate(s.uploads, job, Upload.Next(own, u));
  }

  /** What the server's own steps leave as it is. */
  ghost predicate SameCalls(s: Pool.State, t: Pool.State) {
    && t.panicked == s.panicked && t.accepted == s.accepted
    && t.stopping + t.stopped == s.stopping + s.stopped
    && (s.once != Pool.Fresh ==> t.once != Pool.Fresh)
  }

  lemma InternalStepKeeps(s: Pool.State, step: Pool.Step)
    requires Pool.Enabled(s, step) && Pool.Internal(step)
    ensures SameCalls(s, Pool.Next(s, step))
  {
  }

  /** Left to itself the server takes a bounded number of steps, and forgets no call of Stop. */
  lemma {:induction false} InternalRunsEnd(a: Aead, size: nat, s: State, steps: seq<Step>, t: State)
    requires Inv(a, size, s) && InternalRun(a, s, steps, t)
    ensures |steps| + Measure(t) <= Measure(s)
    ensures SameCalls(s.pool, t.pool)
    decreases |steps|
  {
    if steps != [] {
      var step := steps[0];
      var next := Next(a, s, step);
      InternalDecreases(a, size, s, step);
      NextInv(a, size, s, step);
      if step.PoolStep? { InternalStepKeeps(s.pool, step.inner); }
      InternalRunsEnd(a, size, next, steps[1..], t);
    }
  }

  /** From every state some internal run leads to rest. */
  lemma {:induction false} ComesToRest(a: Aead, size: nat, s: State) returns (steps: seq<Step>, t: State)
    requires Inv(a, size, s)
    ensures InternalRun(a, s, steps, t) && Quiescent(t)
    decreases Measure(s)
  {
    if Quiescent(s) {
      steps, t := [], s;
    } else {
      var step :| Enabled(s, step) && Internal(step);
      InternalDecreases(a, size, s, step);
      NextInv(a, size, s, step);
      var rest;
      rest, t := ComesToRest(a, size, Next(a, s, step));
      steps := [step] + rest;
      assert steps[1..] == rest;
    }
  }

  // ---- Stop ----

  /** An upload whose request went away and whose row was then refused. */
  predicate Abandoned(u: Upload.State) {
    u.requester == Upload.Cancelled && u.storage == Upload.Stored && u.created == Some(false)
  }

  predicate HoldsAbandoned(s: State, w: nat) {
    && w < |s.pool.workers| && s.pool.workers[w].Running?
    && s.pool.workers[w].job in s.uploads && Abandoned(s.uploads[s.pool.workers[w].job])
  }

  lemma BlockedJob(a: Aead, size: nat, s: State, w: nat)
    requires Reachable(a, size, s) && Quiescent(s) && !s.pool.panicked
    requires w < |s.pool.workers| && s.pool.workers[w].Running?
    ensures HoldsAbandoned(s, w)
  {
    ReachableInv(a, size, s);
    var job := s.pool.workers[w].job;
    assert InHand(s, job);
    var u, src := s.uploads[job], s.sources[job];
    forall step ensures !Upload.Enabled(u, step) {
      assert !Enabled(s, UploadStep(job, step)) || !Upload.Enabled(u, step);
    }
    Upload.QuiescentExactly(a, src.base, src.data, src.end, u);
    assert !Enabled(s, PoolStep(Pool.Finish(w)));
  }

  /** After Stop was called and everything has come to rest, some Stop call is still waiting
      exactly when some worker is stuck with an abandoned upload. */
  lemma StopHangsExactly(a: Aead, size: nat, s: State)
    requires Reachable(a, size, s) && Quiescent(s) && !s.pool.panicked && s.pool.once != Pool.Fresh
    ensures s.pool.stopping != {} <==> exists w: nat :: HoldsAbandoned(s, w)
  {
    ReachableInv(a, size, s);
    if s.pool.stopping != {} {
      var step := Pool.StopProgress(size, s.pool);
      assert !Enabled(s, PoolStep(step));
      BlockedJob(a, size, s, step.w);
    }
    forall w: nat | HoldsAbandoned(s, w) ensures s.pool.stopping != {} {
      Pool.RunningJobHoldsStop(size, s.pool, w);
      Pool.SomeoneStopping(size, s.pool);
    }
  }

  lemma {:induction false} HandsHold(ws: seq<Pool.Worker>, j: Pool.Job)
    requires Pool.InHand(ws, j) > 0
    ensures Pool.Running(j) in ws
  {
    if ws[0] != Pool.Running(j) {
      HandsHold(ws[1..], j);
    }
  }

  lemma JobSomewhere(a: Cipher, size: nat, s: State, job: Pool.Job)
    requires Inv(a, size, s) && job in s.uploads
    ensures job in s.pool.queue || InHand(s, job) || job in s.pool.finished
  {
    Pool.Conservation(size, s.pool, job);
    if Pool.InHand(s.pool.workers, job) > 0 { HandsHold(s.pool.workers, job); }
  }

  lemma QueuedAtRest(a: Aead, size: nat, s: State, w: nat)
    requires Reachable(a, size, s) && Quiescent(s) && !s.pool.panicked && s.pool.queue != [] && w < size
    ensures HoldsAbandoned(s, w)
  {
    ReachableInv(a, size, s);
    Pool.ReachableInv(size, s.pool);
    assert !Enabled(s, PoolStep(Pool.Take(w)));
    BlockedJob(a, size, s, w);
  }

  lemma HeldAtRest(a: Aead, size: nat, s: State, job: Pool.Job)
    requires Reachable(a, size, s) && Quiescent(s) && !s.pool.panicked && InHand(s, job)
    ensures job in s.uploads && Abandoned(s.uploads[job])
  {
    var w :| 0 <= w < |s.pool.workers| && s.pool.workers[w] == Pool.Running(job);
    BlockedJob(a, size, s, w);
  }

  /** At rest no request is waiting, and the job of every upload has finished, or it is in hand
      and abandoned, or it is still queued because every worker holds an abandoned one. */
  lemma EveryJobAtRest(a: Aead, size: nat, s: State, job: Pool.Job)
    requires Reachable(a, size, s) && Quiescent(s) && !s.pool.panicked && job in s.uploads
    ensures s.uploads[job].requester != Upload.Waiting
    ensures || s.uploads[job].job == Upload.Finished
            || (InHand(s, job) && Abandoned(s.uploads[job]))
            || (job in s.pool.queue && forall w: nat :: w < size ==> HoldsAbandoned(s, w))
  {
    ReachableInv(a, size, s);
    JobSomewhere(a, size, s, job);
    assert !Enabled(s, UploadStep(job, Upload.Cancel));
    if job in s.pool.queue {
      forall w: nat | w < size ensures HoldsAbandoned(s, w) { QueuedAtRest(a, size, s, w); }
    } else if InHand(s, job) {
      HeldAtRest(a, size, s, job);
    }
  }

  /** Once Stop was called and no more uploads come, the server takes a bounded number of
      steps. Where it can take no more, either every Stop call has returned and every accepted
      job has finished, or a worker is stuck with an abandoned upload and no call returned. */
  lemma StopOutcome(a: Aead, size: nat, s: State, steps: seq<Step>, t: State)
    requires Reachable(a, size, s) && !s.pool.panicked && s.pool.stopping != {}
    requires InternalRun(a, s, steps, t)
    ensures |steps| <= Measure(s)
    ensures Quiescent(t) && (exists w: nat :: HoldsAbandoned(t, w)) ==> t.pool.stopped == {}
    ensures Quiescent(t) && !(exists w: nat :: HoldsAbandoned(t, w)) ==>
              && t.pool.stopping == {} && s.pool.stopping <= t.pool.stopped
              && multiset(t.pool.finished) == multiset(s.pool.accepted)
  {
    ReachableInv(a, size, s);
    Pool.ReachableInv(size, s.pool);
    InternalRunsEnd(a, size, s, steps, t);
    ReachableRun(a, size, s, steps, t);
    ReachableInv(a, size, t);
    if Quiescent(t) {
      StopHangsExactly(a, size, t);
      if w: nat :| HoldsAbandoned(t, w) {
        Pool.RunningJobHoldsStop(size, t.pool, w);
      } else {
        var c :| c in s.pool.stopping;
        assert c in t.pool.stopping + t.pool.stopped;
        Pool.StopDrains(size, t.pool);
      }
    }
  }

  /** Worker w has the job in hand, whose upload can neither move nor finish. */
  ghost predicate Stuck(s: State, w: nat, job: Pool.Job) {
    && w < |s.pool.workers| && s.pool.workers[w] == Pool.Running(job)
    && job in s.uploads && Upload.Quiescent(s.uploads[job]) && s.uploads[job].job != Upload.Finished
  }

  lemma StuckStep(a: Cipher, s: State, w: nat, job: Pool.Job, step: Step)
    requires Stuck(s, w, job) && Enabled(s, step)
    ensures Stuck(Next(a, s, step), w, job)
  {
    match step
    case PoolStep(p) => assert p != Pool.Finish(w);
    case UploadStep(j, u) => assert j != job;
    case _ =>
  }

  /** Such a worker stays stuck whatever else happens, and no Stop call ever returns. */
  lemma {:induction false} StuckForever(a: Cipher, size: nat, s: State, w: nat, job: Pool.Job,
                                        steps: seq<Step>, t: State)
    requires Inv(a, size, s) && Stuck(s, w, job) && Run(a, s, steps, t)
    ensures Stuck(t, w, job) && t.pool.stopped == {}
    decreases |steps|
  {
    if steps == [] {
      Pool.RunningJobHoldsStop(size, s.pool, w);
    } else {
      NextInv(a, size, s, steps[0]);
      StuckStep(a, s, w, job, steps[0]);
      StuckForever(a, size, Next(a, s, steps[0]), w, job, steps[1..], t);
    }
  }

  // ---- Stop can hang ----

  /** A run of one upload, taken while its job is in hand. */
  lemma {:induction false} LiftRun(a: Cipher, size: nat, s: State, job: Pool.Job,
                                   steps: seq<Upload.Step>, u: Upload.State)
    returns (t: State)
    requires Reachable(a, size, s) && job in s.uploads && InHand(s, job) && Upload.Run(s.uploads[job], steps, u)
    ensures Reachable(a, size, t) && t.pool == s.pool && job in t.uploads && t.uploads[job] == u
    decreases |steps|
  {
    if steps == [] {
      t := s;
    } else {
      t := ReachableNext(a, size, s, UploadStep(job, steps[0]));
      t := LiftRun(a, size, t, job, steps[1..], u);
    }
  }

  lemma JobCanBlock(a: Aead, size: nat, base: NonceBytes, job: Pool.Job) returns (s: State)
    requires size > 0
    ensures Reachable(a, size, s) && !s.pool.panicked && s.pool.once == Pool.Fresh
    ensures s.pool.stopping == {} == s.pool.stopped
    ensures Stuck(s, 0, job)
  {
    s := Start(size);
    assert Run(a, s, [], s);
    s := ReachableNext(a, size, s, Submit(job, Source(base, [], Eof)));
    s := ReachableNext(a, size, s, PoolStep(Pool.Take(0)));
    Upload.WorkerCanBlock(a, base, [], Eof);
    var u :| Upload.Reachable(a, base, [], Eof, u) && Upload.Quiescent(u) && u.job != Upload.Finished;
    var steps :| Upload.Run(Upload.Start(a, base, [], Eof), steps, u);
    assert s.pool.workers[0] == Pool.Running(job);
    s := LiftRun(a, size, s, job, steps, u);
  }

  /** Any pool with a worker can end with a Stop call that waits for ever. */
  lemma StopCanHang(a: Aead, size: nat, base: NonceBytes, job: Pool.Job)
    requires size > 0
    ensures exists s :: Reachable(a, size, s) && Quiescent(s) && !s.pool.panicked && s.pool.stopping != {}
  {
    var s := JobCanBlock(a, size, base, job);
    s := ReachableNext(a, size, s, PoolStep(Pool.StopEnter(0)));
    ReachableInv(a, size, s);
    var steps, t := ComesToRest(a, size, s);
    InternalRunsEnd(a, size, s, steps, t);
    StuckForever(a, size, s, 0, job, steps, t);
    assert 0 in t.pool.stopping + t.pool.stopped;
    ReachableRun(a, size, s, steps, t);
  }
}
