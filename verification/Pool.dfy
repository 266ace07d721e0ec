/** The worker pool: a bounded channel, a fixed number of workers draining it, and a Stop
    that closes the channel once and waits for the workers. A run is any interleaving of
    the atomic steps of submitters, workers and Stop callers. */
module Pool {
  datatype Job = Job(id: string)
  datatype Worker = Idle | Running(job: Job) | Exited
  datatype Once = Fresh | Closing | Draining | Done

  datatype State = State(
    size: nat,
    queue: seq<Job>,       // the channel's buffer
    closed: bool,
    workers: seq<Worker>,
    wg: nat,               // the wait group's counter
    once: Once,
    stopping: set<nat>,    // Stop calls that have not returned
    stopped: set<nat>,     // Stop calls that have returned
    panicked: bool,        // a send on the closed channel has killed the process
    accepted: seq<Job>,    // history: jobs accepted, started and finished, in order
    started: seq<Job>,
    finished: seq<Job>)

  datatype Step =
    | Submit(job: Job) | SubmitClosed
    | Take(w: nat) | Finish(w: nat) | Exit(w: nat)
    | StopEnter(c: nat) | StopClose | StopDrained | StopReturn(c: nat)

  const SLOTS_PER_WORKER := 10

  function Start(size: nat): State {
    State(size, [], false, seq(size, _ => Idle), size, Fresh, {}, {}, false, [], [], [])
  }

  /** The counter is positive whenever a worker is there to leave (see WorkerTurn). */
  predicate Enabled(s: State, step: Step) {
    && !s.panicked
    && match step
       case Submit(_) => !s.closed && |s.queue| < SLOTS_PER_WORKER * s.size
       case SubmitClosed => s.closed
       case Take(w) => w < |s.workers| && s.workers[w] == Idle && s.queue != []
       case Finish(w) => w < |s.workers| && s.workers[w].Running?
       case Exit(w) => w < |s.workers| && s.workers[w] == Idle && s.queue == [] && s.closed && s.wg > 0
       case StopEnter(c) => c !in s.stopping + s.stopped
       case StopClose => s.once == Closing
       case StopDrained => s.once == Draining && s.wg == 0
       case StopReturn(c) => s.once == Done && c in s.stopping
  }

  function Next(s: State, step: Step): State
    requires Enabled(s, step)
  {
    match step
    case Submit(job) => s.(queue := s.queue + [job], accepted := s.accepted + [job])
    case SubmitClosed => s.(panicked := true)
    case Take(w) =>
      s.(workers := s.workers[w := Running(s.queue[0])], queue := s.queue[1..], started := s.started + [s.queue[0]])
    case Finish(w) => s.(workers := s.workers[w := Idle], finished := s.finished + [s.workers[w].job])
    case Exit(w) => s.(workers := s.workers[w := Exited], wg := s.wg - 1)
    case StopEnter(c) => s.(stopping := s.stopping + {c}, once := if s.once == Fresh then Closing else s.once)
    case StopClose => s.(closed := true, once := Draining)
    case StopDrained => s.(once := Done)
    case StopReturn(c) => s.(stopping := s.stopping - {c}, stopped := s.stopped + {c})
  }

  /** A goroutine that cannot take its step waits and changes nothing. */
  function After(s: State, step: Step): State {
    if Enabled(s, step) then Next(s, step) else s
  }

  ghost predicate Run(s: State, steps: seq<Step>, t: State)
    decreases |steps|
  {
    if steps == [] then s == t
    else Enabled(s, steps[0]) && Run(Next(s, steps[0]), steps[1..], t)
  }

  // ---- The invariant ----

  /** How many workers are running job j. */
  function InHand(ws: seq<Worker>, j: Job): nat {
    if ws == [] then 0 else (if ws[0] == Running(j) then 1 else 0) + InHand(ws[1..], j)
  }

  function Live(ws: seq<Worker>): nat {
    if ws == [] then 0 else (if ws[0] == Exited then 0 else 1) + Live(ws[1..])
  }

  lemma {:induction false} UpdateWorker(ws: seq<Worker>, i: nat, w: Worker, j: Job)
    requires i < |ws|
    ensures InHand(ws[i := w], j)
         == InHand(ws, j) - (if ws[i] == Running(j) then 1 else 0) + (if w == Running(j) then 1 else 0)
    ensures Live(ws[i := w]) == Live(ws) - (if ws[i] == Exited then 0 else 1) + (if w == Exited then 0 else 1)
  {
    var us := ws[i := w];
    if i == 0 {
      assert us[1..] == ws[1..];
    } else {
      assert us[1..] == ws[1..][i - 1 := w];
      UpdateWorker(ws[1..], i - 1, w, j);
    }
  }

  function Count(js: seq<Job>, j: Job): nat { multiset(js)[j] }

  /** Jobs start in the order they were accepted, the channel is bounded, the wait group
      counts the workers still there, and those left only after the closed queue was empty. */
  ghost predicate Inv(s: State) {
    && s.accepted == s.started + s.queue
    && |s.queue| <= SLOTS_PER_WORKER * s.size
    && |s.workers| == s.size
    && s.wg == Live(s.workers)
    && (s.closed <==> s.once == Draining || s.once == Done)
    && (forall w :: 0 <= w < |s.workers| && s.workers[w] == Exited ==> s.closed && s.queue == [])
    && (s.once == Done ==> s.wg == 0)
    && (s.once == Fresh <==> s.stopping + s.stopped == {})
    && (s.stopped != {} ==> s.once == Done)
  }

  /** Every start of job j is in hand or finished, once each. */
  ghost predicate Balanced(s: State, j: Job) {
    Count(s.started, j) == InHand(s.workers, j) + Count(s.finished, j)
  }

  lemma StartInv(size: nat, j: Job)
    ensures Inv(Start(size)) && Balanced(Start(size), j)
  {
    AllIdle(size, j);
  }

  lemma {:induction false} AllIdle(size: nat, j: Job)
    ensures InHand(seq(size, _ => Idle), j) == 0 && Live(seq(size, _ => Idle)) == size
  {
    if size > 0 {
      assert seq(size, _ => Idle)[1..] == seq(size - 1, _ => Idle);
      AllIdle(size - 1, j);
    }
  }

  lemma CountSnoc(js: seq<Job>, x: Job, j: Job)
    ensures Count(js + [x], j) == Count(js, j) + (if x == j then 1 else 0)
  {
  }

  lemma NextBalanced(s: State, step: Step, j: Job)
    requires Balanced(s, j) && Enabled(s, step)
    ensures Balanced(Next(s, step), j)
  {
    match step
    case Take(w) =>
      UpdateWorker(s.workers, w, Running(s.queue[0]), j);
      CountSnoc(s.started, s.queue[0], j);
    case Finish(w) =>
      UpdateWorker(s.workers, w, Idle, j);
      CountSnoc(s.finished, s.workers[w].job, j);
    case Exit(w) => UpdateWorker(s.workers, w, Exited, j);
    case _ =>
  }

  lemma NextInv(s: State, step: Step)
    requires Inv(s) && Enabled(s, step)
    ensures Inv(Next(s, step))
  {
    match step
    case Submit(job) => assert s.started + (s.queue + [job]) == s.started + s.queue + [job];
    case Take(w) =>
      UpdateWorker(s.workers, w, Running(s.queue[0]), s.queue[0]);
      assert s.started + [s.queue[0]] + s.queue[1..] == s.started + s.queue;
    case Finish(w) => UpdateWorker(s.workers, w, Idle, s.workers[w].job);
    case Exit(w) => UpdateWorker(s.workers, w, Exited, Job(""));
    case _ =>
  }

  lemma {:induction false} RunInv(s: State, steps: seq<Step>, t: State, j: Job)
    requires Inv(s) && Balanced(s, j) && Run(s, steps, t)
    ensures Inv(t) && Balanced(t, j)
    decreases |steps|
  {
    if steps != [] {
      NextInv(s, steps[0]);
      NextBalanced(s, steps[0], j);
      RunInv(Next(s, steps[0]), steps[1..], t, j);
    }
  }

  ghost predicate Reachable(size: nat, s: State) {
    exists steps :: Run(Start(size), steps, s)
  }

  lemma ReachableNext(size: nat, s: State, step: Step) returns (t: State)
    requires Reachable(size, s) && Enabled(s, step)
    ensures t == Next(s, step) && Reachable(size, t)
  {
    t := Next(s, step);
    assert Run(t, [], t) && [step][1..] == [];
    assert Run(s, [step], t);
    ReachableRun(size, s, [step], t);
  }

  // ---- Conservation and drain ----

  lemma {:induction false} NobodyLeft(ws: seq<Worker>, w: nat, j: Job)
    requires Live(ws) == 0
    ensures w < |ws| ==> ws[w] == Exited
    ensures InHand(ws, j) == 0
  {
    if ws != [] {
      NobodyLeft(ws[1..], if w > 0 then w - 1 else 0, j);
    }
  }

  /** In every reachable state each accepted job is queued, in hand or finished, as often as
      it was accepted; the queue holds at most ten jobs a worker; starts follow acceptance. */
  lemma Conservation(size: nat, s: State, j: Job)
    requires Reachable(size, s)
    ensures Count(s.accepted, j) == Count(s.queue, j) + InHand(s.workers, j) + Count(s.finished, j)
    ensures |s.queue| <= 10 * size && |s.workers| == size && s.started <= s.accepted
  {
    var steps :| Run(Start(size), steps, s);
    StartInv(size, j);
    RunInv(Start(size), steps, s, j);
    RunKeepsSize(Start(size), steps, s);
    assert multiset(s.started + s.queue) == multiset(s.started) + multiset(s.queue);
  }

  lemma {:induction false} RunKeepsSize(s: State, steps: seq<Step>, t: State)
    requires Run(s, steps, t)
    ensures t.size == s.size
    decreases |steps|
  {
    if steps != [] {
      RunKeepsSize(Next(s, steps[0]), steps[1..], t);
    }
  }

  lemma ReachableInv(size: nat, s: State)
    requires Reachable(size, s)
    ensures Inv(s) && s.size == size
  {
    var steps :| Run(Start(size), steps, s);
    StartInv(size, Job(""));
    RunInv(Start(size), steps, s, Job(""));
    RunKeepsSize(Start(size), steps, s);
  }

  /** The jobs of the Submit calls that went through, in order. */
  function Submitted(steps: seq<Step>): seq<Job> {
    if steps == [] then []
    else (if steps[0].Submit? then [steps[0].job] else []) + Submitted(steps[1..])
  }

  function StopCalls(steps: seq<Step>): set<nat> {
    set i | 0 <= i < |steps| && steps[i].StopEnter? :: steps[i].c
  }

  lemma NextCalls(s: State, step: Step)
    requires Enabled(s, step)
    ensures Next(s, step).accepted == s.accepted + (if step.Submit? then [step.job] else [])
    ensures Next(s, step).stopping + Next(s, step).stopped
         == s.stopping + s.stopped + (if step.StopEnter? then {step.c} else {})
    ensures Next(s, step).panicked <==> step.SubmitClosed?
  {
  }

  /** What a run has accepted is decided by the Submit calls alone. */
  lemma {:induction false} RunAccepts(s: State, steps: seq<Step>, t: State)
    requires Run(s, steps, t)
    ensures t.accepted == s.accepted + Submitted(steps)
    decreases |steps|
  {
    if steps == [] {
      assert s.accepted + [] == s.accepted;
    } else {
      NextCalls(s, steps[0]);
      RunAccepts(Next(s, steps[0]), steps[1..], t);
      var first := if steps[0].Submit? then [steps[0].job] else [];
      assert s.accepted + first + Submitted(steps[1..]) == s.accepted + (first + Submitted(steps[1..]));
    }
  }

  lemma StopCallsFirst(steps: seq<Step>)
    requires steps != []
    ensures StopCalls(steps) == (if steps[0].StopEnter? then {steps[0].c} else {}) + StopCalls(steps[1..])
  {
    forall i | 0 <= i < |steps[1..]| ensures steps[i + 1] == steps[1..][i] {}
  }

  /** Every Stop call that was made is pending or has returned, and no other. */
  lemma {:induction false} RunStops(s: State, steps: seq<Step>, t: State)
    requires Run(s, steps, t)
    ensures t.stopping + t.stopped == s.stopping + s.stopped + StopCalls(steps)
    decreases |steps|
  {
    if steps != [] {
      NextCalls(s, steps[0]);
      RunStops(Next(s, steps[0]), steps[1..], t);
      StopCallsFirst(steps);
    }
  }

  /** The process is dead exactly after a Submit on the closed channel, which is its last step. */
  lemma {:induction false} RunPanics(s: State, steps: seq<Step>, t: State)
    requires Run(s, steps, t) && !s.panicked
    ensures t.panicked <==> steps != [] && steps[|steps| - 1].SubmitClosed?
    ensures forall i :: 0 <= i < |steps| - 1 ==> !steps[i].SubmitClosed?
    decreases |steps|
  {
    if steps != [] {
      NextCalls(s, steps[0]);
      if |steps| > 1 {
        assert Enabled(Next(s, steps[0]), steps[1..][0]);
        RunPanics(Next(s, steps[0]), steps[1..], t);
        assert steps[1..][|steps| - 2] == steps[|steps| - 1];
        forall i | 0 < i < |steps| - 1 ensures !steps[i].SubmitClosed? { assert steps[1..][i - 1] == steps[i]; }
      }
    }
  }

  /** In every run each job is queued, in hand or finished, in all as often as it was sent, and
      jobs start in the order in which they were sent. */
  lemma EverySubmitKept(size: nat, steps: seq<Step>, s: State, j: Job)
    requires Run(Start(size), steps, s)
    ensures Count(Submitted(steps), j) == Count(s.queue, j) + InHand(s.workers, j) + Count(s.finished, j)
    ensures s.started + s.queue == Submitted(steps)
  {
    Conservation(size, s, j);
    ReachableInv(size, s);
    RunAccepts(Start(size), steps, s);
    assert [] + Submitted(steps) == Submitted(steps);
  }

  lemma DrainedQueue(s: State, w: nat)
    requires Inv(s) && s.wg == 0
    ensures s.queue == [] && (w < |s.workers| ==> s.workers[w] == Exited)
  {
    NobodyLeft(s.workers, w, Job(""));
    NobodyLeft(s.workers, 0, Job(""));
  }

  /** Once any Stop call has returned, all workers have left and every accepted job has run
      to its end, exactly as often as it was accepted, started in acceptance order. */
  lemma StopDrains(size: nat, s: State)
    requires Reachable(size, s) && s.stopped != {}
    ensures s.closed && s.queue == [] && s.started == s.accepted
    ensures multiset(s.finished) == multiset(s.accepted)
    ensures forall w :: 0 <= w < |s.workers| ==> s.workers[w] == Exited
  {
    ReachableInv(size, s);
    forall w: nat | w < |s.workers| ensures s.workers[w] == Exited { DrainedQueue(s, w); }
    DrainedQueue(s, 0);
    forall j ensures multiset(s.finished)[j] == multiset(s.accepted)[j] {
      Conservation(size, s, j);
      NobodyLeft(s.workers, 0, j);
    }
  }

  /** A job that never ends keeps every Stop call waiting. */
  lemma RunningJobHoldsStop(size: nat, s: State, w: nat)
    requires Reachable(size, s) && w < |s.workers| && s.workers[w].Running?
    ensures s.stopped == {} && s.once != Done
  {
    ReachableInv(size, s);
    if s.once == Done { DrainedQueue(s, w); }
  }

  lemma NoNewJobs(s: State, step: Step, j: Job)
    requires Enabled(s, step) && !step.Submit?
    ensures j in Next(s, step).queue || Running(j) in Next(s, step).workers ==> j in s.queue || Running(j) in s.workers
  {
  }

  lemma SomeoneStopping(size: nat, s: State)
    requires Reachable(size, s) && s.once != Fresh && s.stopped == {}
    ensures s.stopping != {}
  {
    ReachableInv(size, s);
  }

  // ---- Stop returns ----

  /** Steps the pool takes by itself; the others are calls made from outside. */
  predicate Internal(step: Step) {
    step.Take? || step.Finish? || step.Exit? || step.StopClose? || step.StopDrained? || step.StopReturn?
  }

  function Effort(ws: seq<Worker>): nat {
    if ws == [] then 0
    else (match ws[0] case Running(_) => 2 case Idle => 1 case Exited => 0) + Effort(ws[1..])
  }

  lemma {:induction false} UpdateEffort(ws: seq<Worker>, i: nat, w: Worker)
    requires i < |ws|
    ensures Effort(ws[i := w]) == Effort(ws) - Effort([ws[i]]) + Effort([w])
  {
    var us := ws[i := w];
    if i == 0 {
      assert us[1..] == ws[1..];
    } else {
      assert us[1..] == ws[1..][i - 1 := w];
      UpdateEffort(ws[1..], i - 1, w);
    }
  }

  function Measure(s: State): nat {
    2 * |s.queue| + Effort(s.workers) + |s.stopping|
    + (match s.once case Fresh => 3 case Closing => 2 case Draining => 1 case Done => 0)
  }

  lemma InternalDecreases(s: State, step: Step)
    requires Enabled(s, step) && Internal(step)
    ensures Measure(Next(s, step)) < Measure(s)
  {
    match step
    case Take(w) => UpdateEffort(s.workers, w, Running(s.queue[0]));
    case Finish(w) => UpdateEffort(s.workers, w, Idle);
    case Exit(w) => UpdateEffort(s.workers, w, Exited);
    case StopReturn(c) => assert |s.stopping - {c}| == |s.stopping| - 1;
    case _ =>
  }

  lemma {:induction false} SomeoneLeft(ws: seq<Worker>) returns (w: nat)
    requires Live(ws) > 0
    ensures w < |ws| && ws[w] != Exited
  {
    if ws[0] != Exited {
      w := 0;
    } else {
      w := SomeoneLeft(ws[1..]);
      w := w + 1;
    }
  }

  /** After Stop was called, as long as some Stop call has not returned the pool can move by
      itself (jobs are assumed to finish, and nobody submits to the closed pool). */
  lemma StopProgress(size: nat, s: State) returns (step: Step)
    requires Reachable(size, s) && !s.panicked && s.stopping != {}
    ensures Internal(step) && Enabled(s, step)
  {
    ReachableInv(size, s);
    match s.once
    case Closing => step := StopClose;
    case Draining =>
      if s.wg == 0 {
        step := StopDrained;
      } else {
        var w := SomeoneLeft(s.workers);
        step := if s.workers[w].Running? then Finish(w) else if s.queue != [] then Take(w) else Exit(w);
      }
    case Done =>
      var c :| c in s.stopping;
      step := StopReturn(c);
  }

  /** A run of the pool by itself is finite, and when it can go no further after a call of
      Stop, every Stop call has returned and the jobs are done. */
  lemma StopReturns(size: nat, s: State, steps: seq<Step>, t: State)
    requires Reachable(size, s) && !s.panicked && s.stopping != {} && Run(s, steps, t)
    requires forall i :: 0 <= i < |steps| ==> Internal(steps[i])
    ensures |steps| <= Measure(s)
    ensures (forall step :: Internal(step) ==> !Enabled(t, step)) ==>
              t.stopping == {} && t.stopped >= s.stopping && multiset(t.finished) == multiset(s.accepted)
  {
    InternalRun(s, steps, t);
    ReachableRun(size, s, steps, t);
    if t.stopping != {} {
      var step := StopProgress(size, t);
    } else {
      var c :| c in s.stopping;
      assert c in t.stopped;
      StopDrains(size, t);
    }
  }

  lemma {:induction false} InternalRun(s: State, steps: seq<Step>, t: State)
    requires Run(s, steps, t) && forall i :: 0 <= i < |steps| ==> Internal(steps[i])
    ensures |steps| + Measure(t) <= Measure(s)
    ensures t.panicked == s.panicked && t.accepted == s.accepted
    ensures t.stopping + t.stopped == s.stopping + s.stopped
    decreases |steps|
  {
    if steps != [] {
      InternalDecreases(s, steps[0]);
      InternalRun(Next(s, steps[0]), steps[1..], t);
    }
  }

  lemma ReachableRun(size: nat, s: State, steps: seq<Step>, t: State)
    requires Reachable(size, s) && Run(s, steps, t)
    ensures Reachable(size, t)
  {
    var before :| Run(Start(size), before, s);
    RunConcat(Start(size), before, s, steps, t);
  }

  lemma {:induction false} RunConcat(s: State, first: seq<Step>, t: State, second: seq<Step>, u: State)
    requires Run(s, first, t) && Run(t, second, u)
    ensures Run(s, first + second, u)
    decreases |first|
  {
    if first == [] {
      assert first + second == second;
    } else {
      assert (first + second)[1..] == first[1..] + second;
      RunConcat(Next(s, first[0]), first[1..], t, second, u);
    }
  }

  // ---- The pool object ----

  /** The pool and its goroutines. Each method is one atomic turn of a submitter, a worker or
      a Stop caller; it returns false when that goroutine has to wait. */
  class WorkerPool {
    const size: nat
    var jobs: seq<Job>
    var closed: bool
    var wg: nat
    var once: Once
    var workers: seq<Worker>
    var stopping: set<nat>
    var stopped: set<nat>
    var panicked: bool
    ghost var accepted: seq<Job>
    ghost var started: seq<Job>
    ghost var finished: seq<Job>

    ghost function View(): State
      reads this
    {
      State(size, jobs, closed, workers, wg, once, stopping, stopped, panicked, accepted, started, finished)
    }

    constructor (size: nat)
      ensures View() == Start(size) && Inv(View())
    {
      this.size := size;
      jobs, closed, once, stopping, stopped, panicked := [], false, Fresh, {}, {}, false;
      accepted, started, finished := [], [], [];
      wg, workers := 0, [];
      new;
      while wg < size
        invariant wg == |workers| <= size
        invariant forall i :: 0 <= i < |workers| ==> workers[i] == Idle
        invariant View() == Start(size).(workers := workers, wg := wg)
      {
        wg := wg + 1;
        workers := workers + [Idle];
      }
      assert workers == seq(size, _ => Idle);
      StartInv(size, Job(""));
    }

    /** `p.jobs <- job`: waits while the channel is full, panics once it is closed. */
    method TrySubmit(job: Job) returns (moved: bool)
      requires Inv(View()) && !panicked
      modifies this
      ensures Inv(View())
      ensures moved <==> old(closed) || |old(jobs)| < 10 * size
      ensures !old(closed) && moved ==> jobs == old(jobs) + [job] && accepted == old(accepted) + [job]
      ensures panicked <==> old(closed)
      ensures View() == After(old(View()), if old(closed) then SubmitClosed else Submit(job))
    {
      if closed {
        NextInv(View(), SubmitClosed);
        panicked, moved := true, true;
      } else if |jobs| < SLOTS_PER_WORKER * size {
        NextInv(View(), Submit(job));
        jobs, accepted, moved := jobs + [job], accepted + [job], true;
      } else {
        moved := false;
      }
    }

    /** Worker w: end the job in hand, or receive from the channel, or leave once it is closed
        and empty. */
    method WorkerTurn(w: nat) returns (moved: bool)
      requires Inv(View()) && !panicked && w < |workers|
      modifies this
      ensures Inv(View())
      ensures moved <==> old(workers[w]).Running? || (old(workers[w]) == Idle && (old(jobs) != [] || old(closed)))
      ensures View() == After(old(View()), if old(workers[w]).Running? then Finish(w)
                                           else if old(jobs) != [] then Take(w) else Exit(w))
    {
      match workers[w]
      case Running(job) =>
        NextInv(View(), Finish(w));
        workers, finished, moved := workers[w := Idle], finished + [job], true;
      case Exited =>
        moved := false;
      case Idle =>
        if jobs != [] {
          NextInv(View(), Take(w));
          workers, started := workers[w := Running(jobs[0])], started + [jobs[0]];
          jobs, moved := jobs[1..], true;
        } else if closed {
          LiveWorker(workers, w);
          NextInv(View(), Exit(w));
          workers, wg, moved := workers[w := Exited], wg - 1, true;
        } else {
          moved := false;
        }
    }

    /** Stop call c: the first caller closes the channel and waits for the workers, everyone
        else waits for the first caller to be done. */
    method StopTurn(c: nat) returns (moved: bool)
      requires Inv(View()) && !panicked && c !in stopped
      modifies this
      ensures Inv(View())
      ensures var step := if c !in old(stopping) then StopEnter(c)
                          else if old(once) == Closing then StopClose
                          else if old(once) == Draining then StopDrained
                          else StopReturn(c);
              && (moved <==> Enabled(old(View()), step))
              && View() == After(old(View()), step)
    {
      moved := true;
      if c !in stopping {
        NextInv(View(), StopEnter(c));
        stopping := stopping + {c};
        if once == Fresh { once := Closing; }
      } else {
        match once
        case Fresh => moved := false;
        case Closing =>
          NextInv(View(), StopClose);
          closed, once := true, Draining;
        case Draining =>
          if wg == 0 {
            NextInv(View(), StopDrained);
            once := Done;
          } else {
            moved := false;
          }
        case Done =>
          NextInv(View(), StopReturn(c));
          stopping, stopped := stopping - {c}, stopped + {c};
      }
    }
  }

  lemma {:induction false} LiveWorker(ws: seq<Worker>, w: nat)
    requires w < |ws| && ws[w] != Exited
    ensures Live(ws) > 0
  {
    if w > 0 { LiveWorker(ws[1..], w - 1); }
  }
}
