/**
 Publishing across threads. `Server::publish` holds one lock while it hands a job to every worker: it
 appends to the worker's job queue, then signals the worker's eventfd. Workers wait in epoll, drain the
 eventfd if it was reported, and run their queue. Every interleaving of these steps is a run here.
 */
module Wakeup {
  /** A publish as a worker runs it: deliver `data` to the subscribers of `topic`. */
  datatype Job = Job(topic: string, data: string)

  /** Where a worker is in its main loop. */
  datatype Phase =
    | Waiting            // in epoll_wait
    | Events(fd: bool)   // handling events; `fd`: the eventfd is among them and not yet drained
    | Ran                // jobs processed, about to arm the timer and wait again

  datatype Worker = Worker(phase: Phase, queue: seq<Job>, executed: seq<Job>, signals: nat)

  /** The publisher that holds the server lock: its job, the worker it is at, and whether that worker has the job. */
  datatype Publisher = Idle | Publishing(job: Job, at: nat, added: bool)

  datatype State = State(workers: seq<Worker>, publisher: Publisher, published: seq<Job>)

  /** An eventfd holds at most this count; writing to a full one fails with EAGAIN and changes nothing. */
  const EVENTFD_MAX: nat := 0xffff_ffff_ffff_fffe

  datatype Step =
    | Acquire(job: Job)             // the lock is free: a publish begins
    | AddJob                        // the job is appended to the current worker's queue
    | Signal                        // the current worker's eventfd is written
    | Release                       // all workers served
    | Wake(w: nat, fd: bool)        // epoll_wait returns, with or without the eventfd
    | DrainRead(w: nat)             // one read of the eventfd: takes the count, or EAGAIN ends the draining
    | RunJobs(w: nat)               // the whole queue runs under the queue lock and is cleared
    | Rearm(w: nat)                 // timers are processed, the worker waits again

  predicate Enabled(s: State, step: Step) {
    match step
    case Acquire(_) => s.publisher.Idle?
    case AddJob => s.publisher.Publishing? && !s.publisher.added && s.publisher.at < |s.workers|
    case Signal => s.publisher.Publishing? && s.publisher.added && s.publisher.at < |s.workers|
    case Release => s.publisher.Publishing? && !s.publisher.added && s.publisher.at == |s.workers|
    case Wake(w, fd) => w < |s.workers| && s.workers[w].phase == Waiting && (fd ==> s.workers[w].signals > 0)
    case DrainRead(w) => w < |s.workers| && s.workers[w].phase == Events(true)
    case RunJobs(w) => w < |s.workers| && s.workers[w].phase == Events(false)
    case Rearm(w) => w < |s.workers| && s.workers[w].phase == Ran
  }

  function Apply(s: State, step: Step): (r: State)
    requires Enabled(s, step)
    ensures |r.workers| == |s.workers|
  {
    match step
    case Acquire(job) => s.(publisher := Publishing(job, 0, false), published := s.published + [job])
    case AddJob =>
      var i := s.publisher.at;
      var w := s.workers[i];
      s.(publisher := s.publisher.(added := true), workers := s.workers[i := w.(queue := w.queue + [s.publisher.job])])
    case Signal =>
      var i := s.publisher.at;
      var w := s.workers[i];
      var n := if w.signals < EVENTFD_MAX then w.signals + 1 else w.signals;
      s.(publisher := s.publisher.(at := i + 1, added := false), workers := s.workers[i := w.(signals := n)])
    case Release => s.(publisher := Idle)
    case Wake(w, fd) => s.(workers := s.workers[w := s.workers[w].(phase := Events(fd))])
    case DrainRead(w) =>
      var k := s.workers[w];
      s.(workers := s.workers[w := if k.signals > 0 then k.(signals := 0) else k.(phase := Events(false))])
    case RunJobs(w) =>
      var k := s.workers[w];
      s.(workers := s.workers[w := k.(phase := Ran, executed := k.executed + k.queue, queue := [])])
    case Rearm(w) => s.(workers := s.workers[w := s.workers[w].(phase := Waiting)])
  }

  function Start(n: nat): (s: State) {
    State(seq(n, _ => Worker(Waiting, [], [], 0)), Idle, [])
  }

  // ----- what every reachable state keeps

  /** The publisher has appended to worker `i` and not yet signalled it. */
  predicate InFlight(s: State, i: nat) { s.publisher.Publishing? && s.publisher.at == i && s.publisher.added }

  /** The publish that is under way has not reached worker `i`. */
  predicate Ahead(s: State, i: nat) {
    s.publisher.Publishing? && (s.publisher.at < i || (s.publisher.at == i && !s.publisher.added))
  }

  /** A worker that has run its queue, and has jobs again, will be woken. */
  predicate NoLostWakeup(s: State, i: nat)
    requires i < |s.workers|
  {
    var w := s.workers[i];
    (w.phase == Waiting || w.phase == Ran) && w.queue != [] ==> w.signals > 0 || InFlight(s, i)
  }

  /** What a worker has executed and still has queued is the publish order, less at most the one under way. */
  predicate InOrder(s: State, i: nat)
    requires i < |s.workers|
  {
    var w := s.workers[i];
    s.published == w.executed + w.queue + if Ahead(s, i) then [s.publisher.job] else []
  }

  predicate Inv(s: State) {
    && (s.publisher.Publishing? ==>
          s.publisher.at <= |s.workers| && (s.publisher.added ==> s.publisher.at < |s.workers|))
    && (forall i :: 0 <= i < |s.workers| ==> NoLostWakeup(s, i))
    && (forall i :: 0 <= i < |s.workers| ==> InOrder(s, i))
  }

  lemma StartInv(n: nat)
    ensures Inv(Start(n))
  {}

  lemma StepNoLostWakeup(s: State, step: Step, i: nat)
    requires Inv(s) && Enabled(s, step) && i < |s.workers|
    ensures NoLostWakeup(Apply(s, step), i)
  {
    assert NoLostWakeup(s, i);
  }

  lemma StepInOrder(s: State, step: Step, i: nat)
    requires Inv(s) && Enabled(s, step) && i < |s.workers|
    ensures InOrder(Apply(s, step), i)
  {
    assert InOrder(s, i);
    var w := s.workers[i];
    assert w.executed + w.queue + [] == w.executed + w.queue;
    match step {
      case AddJob => assert w.executed + w.queue + [s.publisher.job] == w.executed + (w.queue + [s.publisher.job]) + [];
      case RunJobs(j) => assert w.executed + w.queue == w.executed + w.queue + [];
      case _ =>
    }
  }

  lemma StepInv(s: State, step: Step)
    requires Inv(s) && Enabled(s, step)
    ensures Inv(Apply(s, step))
  {
    var r := Apply(s, step);
    forall i | 0 <= i < |r.workers| ensures NoLostWakeup(r, i) && InOrder(r, i) {
      StepNoLostWakeup(s, step, i);
      StepInOrder(s, step, i);
    }
  }

  /** A run: each step enabled where it is taken. */
  predicate IsRun(s: State, steps: seq<Step>)
    decreases |steps|
  {
    steps == [] || (Enabled(s, steps[0]) && IsRun(Apply(s, steps[0]), steps[1..]))
  }

  function Final(s: State, steps: seq<Step>): (r: State)
    requires IsRun(s, steps)
    ensures |r.workers| == |s.workers|
    decreases |steps|
  {
    if steps == [] then s else Final(Apply(s, steps[0]), steps[1..])
  }

  lemma {:induction false} RunInv(s: State, steps: seq<Step>)
    requires Inv(s) && IsRun(s, steps)
    ensures Inv(Final(s, steps))
    decreases |steps|
  {
    if steps != [] {
      StepInv(s, steps[0]);
      RunInv(Apply(s, steps[0]), steps[1..]);
    }
  }

  /**
   Over every interleaving: a waiting worker with jobs has a positive eventfd count or a publisher between
   append and signal, and each worker has executed or queued the publishes in their order, all of them
   unless the publish under way has not reached it yet.
   */
  lemma EveryRun(n: nat, steps: seq<Step>, i: nat)
    requires IsRun(Start(n), steps) && i < n
    ensures var s := Final(Start(n), steps);
            && |s.workers| == n
            && (s.workers[i].phase == Waiting && s.workers[i].queue != [] ==>
                  s.workers[i].signals > 0 || InFlight(s, i))
            && (s.publisher.Idle? ==> s.published == s.workers[i].executed + s.workers[i].queue)
            && (s.published == s.workers[i].executed + s.workers[i].queue ||
                (s.publisher.Publishing? &&
                    s.published == s.workers[i].executed + s.workers[i].queue + [s.publisher.job]))
  {
    StartInv(n);
    RunInv(Start(n), steps);
    var s := Final(Start(n), steps);
    assert NoLostWakeup(s, i) && InOrder(s, i);
    assert s.workers[i].executed + s.workers[i].queue + [] == s.workers[i].executed + s.workers[i].queue;
  }

  lemma FinalCons(s: State, step: Step, rest: seq<Step>)
    requires Enabled(s, step) && IsRun(Apply(s, step), rest)
    ensures IsRun(s, [step] + rest) && Final(s, [step] + rest) == Final(Apply(s, step), rest)
  {
    assert ([step] + rest)[1..] == rest;
  }

  /**
   No publish is stranded: once the publisher is done, a waiting worker can take the steps that run its whole
   queue.
   */
  lemma WaitingWorkerCatchesUp(s: State, w: nat)
    requires Inv(s) && s.publisher.Idle? && w < |s.workers| && s.workers[w].phase == Waiting && s.workers[w].queue != []
    ensures var steps := [Wake(w, true), DrainRead(w), DrainRead(w), RunJobs(w)];
            && IsRun(s, steps)
            && Final(s, steps).workers[w].executed == s.published && Final(s, steps).workers[w].queue == []
  {
    assert NoLostWakeup(s, w) && InOrder(s, w);
    var s1 := Apply(s, Wake(w, true));
    var s2 := Apply(s1, DrainRead(w));
    var s3 := Apply(s2, DrainRead(w));
    var s4 := Apply(s3, RunJobs(w));
    FinalCons(s3, RunJobs(w), []);
    FinalCons(s2, DrainRead(w), [RunJobs(w)]);
    FinalCons(s1, DrainRead(w), [DrainRead(w), RunJobs(w)]);
    FinalCons(s, Wake(w, true), [DrainRead(w), DrainRead(w), RunJobs(w)]);
    assert Final(s4, []) == s4;
    assert [Wake(w, true)] + [DrainRead(w), DrainRead(w), RunJobs(w)] ==
        [Wake(w, true), DrainRead(w), DrainRead(w), RunJobs(w)];
    assert [DrainRead(w)] + [DrainRead(w), RunJobs(w)] == [DrainRead(w), DrainRead(w), RunJobs(w)];
    assert [DrainRead(w)] + [RunJobs(w)] == [DrainRead(w), RunJobs(w)];
    assert [RunJobs(w)] + [] == [RunJobs(w)];
  }
}
