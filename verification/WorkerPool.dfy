/** The worker pool of test.py: the main thread dispatches jobs and one break job per worker into a
    FIFO queue, workers move jobs to a second FIFO queue, the main thread collects one result per
    real job and joins the workers.  SIGINT may set `threadExit` at any moment.

    The threads are a step relation: `Next(c, s, a)` is the state after action `a`.  A job leaves the
    first queue before a worker changes its fields, so a job value stands for the Job object. */
module WorkerPool {
  import opened Common

  /** What is known of a test before it runs: whether it is skipped and the return code it will give. */
  datatype Test = Test(skip: bool, code: int)

  datatype Config = Config(tests: seq<Test>, processors: nat) {
    function Total(): nat { |tests| + processors }
  }

  datatype Job = Job(id: nat, isBreak: bool, isSkip: bool, returnCode: int)

  /** The k-th job put into the input queue: first the tests, then the break jobs. */
  function NewJob(c: Config, k: nat): Job {
    if k < |c.tests| then Job(k, false, c.tests[k].skip, 0) else Job(k, true, false, 0)
  }

  datatype Worker = Idle | Got(job: Job) | Running(job: Job) | Posting(job: Job) | Exited(job: Job)

  datatype State = State(
    dispatched: nat, input: seq<Job>, workers: seq<Worker>, output: seq<Job>,
    collected: seq<Job>, joined: nat, threadExit: bool)

  function Init(c: Config): State {
    State(0, [], seq(c.processors, _ => Idle), [], [], 0, false)
  }

  datatype Action =
    | Dispatch | Collect | Join | Signal
    | Take(w: nat) | Decide(w: nat) | Finish(w: nat) | Put(w: nat)

  predicate Enabled(c: Config, s: State, a: Action) {
    match a
    case Dispatch => s.dispatched < c.Total()
    case Collect => s.dispatched == c.Total() && |s.collected| < |c.tests| && s.output != []
    case Join => s.dispatched == c.Total() && |s.collected| >= |c.tests| && s.joined < |s.workers|
                 && s.workers[s.joined].Exited?
    case Signal => !s.threadExit
    case Take(w) => w < |s.workers| && s.workers[w].Idle? && s.input != []
    case Decide(w) => w < |s.workers| && s.workers[w].Got?
    case Finish(w) => w < |s.workers| && s.workers[w].Running? && s.workers[w].job.id < |c.tests|
    case Put(w) => w < |s.workers| && s.workers[w].Posting?
  }

  /** The worker loop after `get`: stop on a break job, hand the job back marked as a break when
      interrupted, hand a skipped job back as it is, run the rest. */
  function Decided(job: Job, threadExit: bool): Worker {
    if job.isBreak then Exited(job)
    else if threadExit then Posting(job.(isBreak := true))
    else if job.isSkip then Posting(job)
    else Running(job)
  }

  function Next(c: Config, s: State, a: Action): State
    requires Enabled(c, s, a)
  {
    match a
    case Dispatch => s.(input := s.input + [NewJob(c, s.dispatched)], dispatched := s.dispatched + 1)
    case Collect => s.(output := s.output[1..], collected := s.collected + [s.output[0]])
    case Join => s.(joined := s.joined + 1)
    case Signal => s.(threadExit := true)
    case Take(w) => s.(input := s.input[1..], workers := s.workers[w := Got(s.input[0])])
    case Decide(w) => s.(workers := s.workers[w := Decided(s.workers[w].job, s.threadExit)])
    case Finish(w) =>
      var job := s.workers[w].job;
      s.(workers := s.workers[w := Posting(job.(returnCode := c.tests[job.id].code))])
    case Put(w) => s.(output := s.output + [s.workers[w].job], workers := s.workers[w := Idle])
  }

  ghost predicate Run(c: Config, s: State, actions: seq<Action>, s': State)
    decreases |actions|
  {
    if actions == [] then s == s'
    else Enabled(c, s, actions[0]) && Run(c, Next(c, s, actions[0]), actions[1..], s')
  }

  ghost predicate Reachable(c: Config, s: State) {
    exists actions :: Run(c, Init(c), actions, s)
  }

  predicate Final(c: Config, s: State) {
    s.dispatched == c.Total() && |s.collected| >= |c.tests| && s.joined >= |s.workers|
  }

  // ---------------------------------------------------------------------------------------------
  // Where a job is

  /** How often the job number `id` occurs in `jobs`. */
  ghost function Times(id: nat, jobs: seq<Job>): nat {
    if jobs == [] then 0
    else Times(id, jobs[..|jobs| - 1]) + if jobs[|jobs| - 1].id == id then 1 else 0
  }

  ghost function Own(worker: Worker): seq<Job> {
    if worker.Idle? then [] else [worker.job]
  }

  ghost function Held(workers: seq<Worker>): seq<Job> {
    if workers == [] then [] else Held(workers[..|workers| - 1]) + Own(workers[|workers| - 1])
  }

  lemma {:induction false} TimesConcat(id: nat, a: seq<Job>, b: seq<Job>)
    ensures Times(id, a + b) == Times(id, a) + Times(id, b)
  {
    if b == [] {
      assert a + b == a;
    } else {
      TimesConcat(id, a, b[..|b| - 1]);
      assert (a + b)[..|a + b| - 1] == a + b[..|b| - 1];
    }
  }

  lemma TimesOne(id: nat, job: Job)
    ensures Times(id, [job]) == if job.id == id then 1 else 0
  {
    assert [job][..0] == [];
  }

  lemma TimesHead(id: nat, jobs: seq<Job>)
    requires jobs != []
    ensures Times(id, jobs) == Times(id, jobs[1..]) + if jobs[0].id == id then 1 else 0
  {
    assert jobs == [jobs[0]] + jobs[1..];
    TimesConcat(id, [jobs[0]], jobs[1..]);
    TimesOne(id, jobs[0]);
  }

  lemma {:induction false} TimesMember(id: nat, jobs: seq<Job>)
    ensures Times(id, jobs) > 0 <==> exists i :: 0 <= i < |jobs| && jobs[i].id == id
  {
    if jobs == [] {
    } else {
      var n := |jobs| - 1;
      TimesMember(id, jobs[..n]);
      if i :| 0 <= i < |jobs| && jobs[i].id == id {
        assert i < n ==> jobs[..n][i].id == id;
      }
    }
  }

  /** A list whose job numbers are pairwise different and cover lo..hi-1 exactly has hi - lo jobs. */
  lemma {:induction false} Pigeonhole(lo: nat, hi: nat, jobs: seq<Job>)
    requires lo <= hi
    requires forall i :: 0 <= i < |jobs| ==> lo <= jobs[i].id < hi
    requires forall id :: lo <= id < hi ==> Times(id, jobs) <= 1
    ensures |jobs| <= hi - lo
    ensures (forall id :: lo <= id < hi ==> Times(id, jobs) == 1) ==> |jobs| == hi - lo
    decreases hi
  {
    if lo == hi {
    } else {
      var last := hi - 1;
      TimesMember(last, jobs);
      if i :| 0 <= i < |jobs| && jobs[i].id == last {
        var rest := jobs[..i] + jobs[i + 1..];
        forall id: nat ensures Times(id, jobs) == Times(id, rest) + if id == last then 1 else 0 {
          TimesWithout(id, jobs, i);
        }
        TimesMember(last, rest);
        Pigeonhole(lo, last, rest);
      } else {
        Pigeonhole(lo, last, jobs);
      }
    }
  }

  lemma TimesWithout(id: nat, jobs: seq<Job>, i: nat)
    requires i < |jobs|
    ensures Times(id, jobs) == Times(id, jobs[..i] + jobs[i + 1..]) + if jobs[i].id == id then 1 else 0
  {
    assert jobs == jobs[..i] + jobs[i..];
    TimesConcat(id, jobs[..i], jobs[i..]);
    TimesHead(id, jobs[i..]);
    assert jobs[i..][1..] == jobs[i + 1..];
    TimesConcat(id, jobs[..i], jobs[i + 1..]);
  }

  lemma {:induction false} HeldConcat(a: seq<Worker>, b: seq<Worker>)
    ensures Held(a + b) == Held(a) + Held(b)
  {
    if b == [] {
      assert a + b == a;
    } else {
      var n := |b| - 1;
      HeldConcat(a, b[..n]);
      assert (a + b)[..|a + b| - 1] == a + b[..n];
      ConcatAssociative(Held(a), Held(b[..n]), Own(b[n]));
    }
  }

  lemma HeldAt(id: nat, workers: seq<Worker>, w: nat)
    requires w < |workers|
    ensures Times(id, Held(workers))
         == Times(id, Held(workers[..w])) + Times(id, Own(workers[w])) + Times(id, Held(workers[w + 1..]))
  {
    assert workers == workers[..w] + ([workers[w]] + workers[w + 1..]);
    HeldConcat(workers[..w], [workers[w]] + workers[w + 1..]);
    HeldConcat([workers[w]], workers[w + 1..]);
    HeldOne(workers[w]);
    TimesConcat(id, Held(workers[..w]), Own(workers[w]) + Held(workers[w + 1..]));
    TimesConcat(id, Own(workers[w]), Held(workers[w + 1..]));
  }

  lemma HeldOne(worker: Worker)
    ensures Held([worker]) == Own(worker)
  {
    assert [worker][..0] == [];
  }

  lemma HeldUpdate(id: nat, workers: seq<Worker>, w: nat, worker: Worker)
    requires w < |workers|
    ensures Times(id, Held(workers[w := worker])) + Times(id, Own(workers[w]))
         == Times(id, Held(workers)) + Times(id, Own(worker))
  {
    var workers' := workers[w := worker];
    assert workers'[..w] == workers[..w] && workers'[w + 1..] == workers[w + 1..];
    HeldAt(id, workers, w);
    HeldAt(id, workers', w);
  }

  /** A worker that is not idle holds one job. */
  lemma {:induction false} HeldCount(workers: seq<Worker>)
    ensures |Held(workers)| <= |workers|
    ensures |Held(workers)| == |workers| <==> forall w :: 0 <= w < |workers| ==> !workers[w].Idle?
  {
    if workers == [] {
    } else {
      var n := |workers| - 1;
      HeldCount(workers[..n]);
      assert forall w :: 0 <= w < n ==> workers[..n][w] == workers[w];
    }
  }

  lemma {:induction false} HeldMember(workers: seq<Worker>, i: nat) returns (w: nat)
    requires i < |Held(workers)|
    ensures w < |workers| && !workers[w].Idle? && workers[w].job == Held(workers)[i]
  {
    var n := |workers| - 1;
    if i < |Held(workers[..n])| {
      w := HeldMember(workers[..n], i);
    } else {
      w := n;
    }
  }

  lemma HeldMembers(workers: seq<Worker>)
    ensures |Held(workers)| <= |workers|
    ensures |Held(workers)| == |workers| <==> forall w :: 0 <= w < |workers| ==> !workers[w].Idle?
    ensures forall i :: 0 <= i < |Held(workers)| ==>
      exists w :: 0 <= w < |workers| && !workers[w].Idle? && workers[w].job == Held(workers)[i]
  {
    HeldCount(workers);
    forall i | 0 <= i < |Held(workers)|
      ensures exists w :: 0 <= w < |workers| && !workers[w].Idle? && workers[w].job == Held(workers)[i]
    {
      var w := HeldMember(workers, i);
    }
  }

  lemma {:induction false} HeldBy(workers: seq<Worker>, w: nat)
    requires w < |workers| && !workers[w].Idle?
    ensures Times(workers[w].job.id, Held(workers)) > 0
  {
    var n := |workers| - 1;
    var id := workers[w].job.id;
    TimesConcat(id, Held(workers[..n]), Own(workers[n]));
    if w < n {
      HeldBy(workers[..n], w);
    } else {
      TimesOne(id, workers[n].job);
    }
  }

  /** How often job `id` occurs among the jobs that have left the input queue. */
  ghost function TimesTaken(id: nat, s: State): nat {
    Times(id, Held(s.workers)) + Times(id, s.output) + Times(id, s.collected)
  }

  // ---------------------------------------------------------------------------------------------
  // The invariant

  /** A job in the output queue: interrupted, skipped, or run. */
  predicate Done(c: Config, job: Job, threadExit: bool) {
    && job.id < |c.tests|
    && var test := c.tests[job.id];
       || (job == NewJob(c, job.id).(isBreak := true) && threadExit)
       || job == Outcome(c, job.id)
  }

  /** The job as it comes back when nobody interrupts. */
  function Outcome(c: Config, id: nat): Job
    requires id < |c.tests|
  {
    if c.tests[id].skip then NewJob(c, id) else NewJob(c, id).(returnCode := c.tests[id].code)
  }

  predicate WorkerOk(c: Config, worker: Worker, threadExit: bool) {
    match worker
    case Idle => true
    case Got(job) => job.id < c.Total() && job == NewJob(c, job.id)
    case Running(job) => job.id < |c.tests| && job == NewJob(c, job.id) && !job.isSkip
    case Posting(job) => Done(c, job, threadExit)
    case Exited(job) => |c.tests| <= job.id < c.Total() && job == NewJob(c, job.id)
  }

  /** The control state of the main thread: dispatch everything, collect, then join in order. */
  predicate MainOk(c: Config, s: State) {
    && s.dispatched <= c.Total() && |s.workers| == c.processors
    && |s.collected| <= |c.tests| && s.joined <= c.processors
    && (s.collected != [] || s.joined > 0 ==> s.dispatched == c.Total())
    && (s.joined > 0 ==> |s.collected| == |c.tests|)
    && forall w :: 0 <= w < s.joined ==> s.workers[w].Exited?
  }

  /** Both queues are FIFO and there is one producer: the input queue is always the last part of what
      was dispatched. */
  predicate InputOk(c: Config, s: State) {
    && |s.input| <= s.dispatched
    && forall i :: 0 <= i < |s.input| ==> s.input[i] == NewJob(c, s.dispatched - |s.input| + i)
  }

  predicate JobsOk(c: Config, s: State) {
    && (forall w :: 0 <= w < |s.workers| ==> WorkerOk(c, s.workers[w], s.threadExit))
    && (forall i :: 0 <= i < |s.output| ==> Done(c, s.output[i], s.threadExit))
    && (forall i :: 0 <= i < |s.collected| ==> Done(c, s.collected[i], s.threadExit))
  }

  /** The jobs taken out of the input queue so far are those a worker holds, those in the output
      queue and those collected, each once. */
  ghost predicate Conserved(s: State) {
    forall id: nat :: TimesTaken(id, s) == if id < s.dispatched - |s.input| then 1 else 0
  }

  ghost predicate Inv(c: Config, s: State) {
    MainOk(c, s) && InputOk(c, s) && JobsOk(c, s) && Conserved(s)
  }

  lemma {:induction false} HeldIdle(n: nat)
    ensures Held(seq(n, _ => Idle)) == []
  {
    if n == 0 {
    } else {
      HeldIdle(n - 1);
      assert seq(n, _ => Idle)[..n - 1] == seq(n - 1, _ => Idle);
    }
  }

  lemma InitInv(c: Config)
    ensures Inv(c, Init(c))
  {
    HeldIdle(c.processors);
  }

  /** What one worker holds afterwards instead of before is all that changes in `Held`. */
  lemma TimesHeldStep(id: nat, workers: seq<Worker>, w: nat, worker: Worker)
    requires w < |workers|
    ensures Times(id, Held(workers[w := worker])) + OwnTimes(id, workers[w])
         == Times(id, Held(workers)) + OwnTimes(id, worker)
  {
    HeldUpdate(id, workers, w, worker);
    OwnTimesAre(id, workers[w]);
    OwnTimesAre(id, worker);
  }

  function OwnTimes(id: nat, worker: Worker): nat {
    if !worker.Idle? && worker.job.id == id then 1 else 0
  }

  lemma OwnTimesAre(id: nat, worker: Worker)
    ensures Times(id, Own(worker)) == OwnTimes(id, worker)
  {
    if !worker.Idle? {
      TimesOne(id, worker.job);
    }
  }

  lemma TimesSnoc(id: nat, jobs: seq<Job>, job: Job)
    ensures Times(id, jobs + [job]) == Times(id, jobs) + if job.id == id then 1 else 0
  {
    TimesConcat(id, jobs, [job]);
    TimesOne(id, job);
  }

  /** Steps of one worker that leave the output queue alone. */
  lemma WorkerMoves(c: Config, s: State, a: Action, id: nat)
    requires Enabled(c, s, a) && (a.Take? || a.Decide? || a.Finish?)
    ensures TimesTaken(id, Next(c, s, a)) == TimesTaken(id, s) + if a.Take? && s.input[0].id == id then 1 else 0
  {
    var worker := Next(c, s, a).workers[a.w];
    TimesHeldStep(id, s.workers, a.w, worker);
    assert Next(c, s, a).workers == s.workers[a.w := worker];
  }

  /** Only `Take` moves a job out of the input queue; every other action moves it on unseen. */
  lemma TimesTakenStep(c: Config, s: State, a: Action, id: nat)
    requires Enabled(c, s, a)
    ensures TimesTaken(id, Next(c, s, a)) == TimesTaken(id, s) + if a.Take? && s.input[0].id == id then 1 else 0
  {
    match a {
      case Dispatch =>
      case Signal =>
      case Join =>
      case Collect =>
        TimesHead(id, s.output);
        TimesSnoc(id, s.collected, s.output[0]);
      case Put(w) =>
        TimesHeldStep(id, s.workers, w, Idle);
        TimesSnoc(id, s.output, s.workers[w].job);
      case Take(_) => WorkerMoves(c, s, a, id);
      case Decide(_) => WorkerMoves(c, s, a, id);
      case Finish(_) => WorkerMoves(c, s, a, id);
    }
  }

  lemma NextConserves(c: Config, s: State, a: Action)
    requires InputOk(c, s) && Conserved(s) && Enabled(c, s, a)
    ensures Conserved(Next(c, s, a))
  {
    var s' := Next(c, s, a);
    forall id: nat ensures TimesTaken(id, s') == if id < s'.dispatched - |s'.input| then 1 else 0 {
      TimesTakenStep(c, s, a, id);
    }
  }

  lemma NextJobsOk(c: Config, s: State, a: Action)
    requires JobsOk(c, s) && InputOk(c, s) && s.dispatched <= c.Total() && Enabled(c, s, a)
    ensures JobsOk(c, Next(c, s, a))
  {
    match a {
      case Take(w) => assert WorkerOk(c, Got(s.input[0]), s.threadExit);
      case Decide(w) => assert WorkerOk(c, Decided(s.workers[w].job, s.threadExit), s.threadExit);
      case _ =>
    }
  }

  lemma NextInv(c: Config, s: State, a: Action)
    requires Inv(c, s) && Enabled(c, s, a)
    ensures Inv(c, Next(c, s, a))
  {
    NextConserves(c, s, a);
    NextJobsOk(c, s, a);
  }

  lemma {:induction false} RunInv(c: Config, s: State, actions: seq<Action>, s': State)
    requires Inv(c, s) && Run(c, s, actions, s')
    ensures Inv(c, s')
    decreases |actions|
  {
    if actions == [] {
    } else {
      NextInv(c, s, actions[0]);
      RunInv(c, Next(c, s, actions[0]), actions[1..], s');
    }
  }

  lemma ReachableInv(c: Config, s: State)
    requires Reachable(c, s)
    ensures Inv(c, s)
  {
    InitInv(c);
    var actions :| Run(c, Init(c), actions, s);
    RunInv(c, Init(c), actions, s);
  }

  // ---------------------------------------------------------------------------------------------
  // Safety

  lemma {:induction false} TimesInput(c: Config, s: State, id: nat, n: nat)
    requires InputOk(c, s) && n <= |s.input|
    ensures Times(id, s.input[..n]) == if s.dispatched - |s.input| <= id < s.dispatched - |s.input| + n then 1 else 0
  {
    if n == 0 {
    } else {
      TimesInput(c, s, id, n - 1);
      assert s.input[..n][..n - 1] == s.input[..n - 1];
    }
  }

  /** In every reachable state every job is in exactly one place: not yet dispatched, in the input
      queue, with a worker, in the output queue, or collected. */
  lemma EveryJobInOnePlace(c: Config, s: State, id: nat)
    requires Reachable(c, s) && id < c.Total()
    ensures (if s.dispatched <= id then 1 else 0) + Times(id, s.input) + Times(id, Held(s.workers))
            + Times(id, s.output) + Times(id, s.collected) == 1
  {
    ReachableInv(c, s);
    TimesInput(c, s, id, |s.input|);
    assert s.input[..|s.input|] == s.input;
    assert TimesTaken(id, s) == if id < s.dispatched - |s.input| then 1 else 0;
  }

  /** Once a worker has seen a break job, every test was dispatched and none is left in the input
      queue: no test is lost behind the break jobs. */
  lemma NoTestLeftBehind(c: Config, s: State, w: nat)
    requires Reachable(c, s) && w < |s.workers|
    requires s.workers[w].Exited? || (s.workers[w].Got? && s.workers[w].job.isBreak)
    ensures s.dispatched >= |c.tests|
    ensures forall i :: 0 <= i < |s.input| ==> s.input[i].isBreak && s.input[i].id >= |c.tests|
  {
    ReachableInv(c, s);
    HeldBy(s.workers, w);
    assert TimesTaken(s.workers[w].job.id, s) > 0;
    assert |c.tests| <= s.workers[w].job.id < s.dispatched - |s.input|;
  }

  /** A break marked by an interrupt is only ever posted and collected; the jobs on which a worker
      stops are exactly the break jobs the main thread dispatched. */
  lemma MarkedBreaksNeverReachAWorker(c: Config, s: State, job: Job)
    requires Reachable(c, s) && job.isBreak && job.id < |c.tests|
    ensures job !in s.input
    ensures forall w :: 0 <= w < |s.workers| && !s.workers[w].Idle? && s.workers[w].job == job ==> s.workers[w].Posting?
    ensures job in s.output || job in s.collected ==> s.threadExit
  {
    ReachableInv(c, s);
  }

  // ---------------------------------------------------------------------------------------------
  // Interrupts

  /** No test numbered `lo` or more has been or is being run, and those already handed back are marked. */
  predicate Cut(c: Config, s: State, lo: nat) {
    && s.threadExit
    && (forall w :: 0 <= w < |s.workers| && !s.workers[w].Idle? && s.workers[w].job.id >= lo ==>
          !s.workers[w].Running? && (s.workers[w].Posting? ==> s.workers[w].job.isBreak))
    && (forall i :: 0 <= i < |s.output| && s.output[i].id >= lo ==> s.output[i].isBreak)
    && (forall i :: 0 <= i < |s.collected| && s.collected[i].id >= lo ==> s.collected[i].isBreak)
  }

  lemma {:induction false} RunKeepsCut(c: Config, s: State, actions: seq<Action>, s': State, lo: nat)
    requires Cut(c, s, lo) && Run(c, s, actions, s')
    ensures Cut(c, s', lo)
    decreases |actions|
  {
    if actions == [] {
    } else {
      RunKeepsCut(c, Next(c, s, actions[0]), actions[1..], s', lo);
    }
  }

  lemma CutAtInterrupt(c: Config, s: State)
    requires Inv(c, s) && s.threadExit
    ensures Cut(c, s, s.dispatched - |s.input|)
  {
    var lo := s.dispatched - |s.input|;
    forall w | 0 <= w < |s.workers| && !s.workers[w].Idle? ensures s.workers[w].job.id < lo {
      HeldBy(s.workers, w);
      assert TimesTaken(s.workers[w].job.id, s) > 0;
    }
    forall i | 0 <= i < |s.output| ensures s.output[i].id < lo {
      TimesMember(s.output[i].id, s.output);
      assert TimesTaken(s.output[i].id, s) > 0;
    }
    forall i | 0 <= i < |s.collected| ensures s.collected[i].id < lo {
      TimesMember(s.collected[i].id, s.collected);
      assert TimesTaken(s.collected[i].id, s) > 0;
    }
  }

  /** Once interrupted, no test that was still queued or undispatched is ever run, skipped or counted:
      along every continuation it comes back marked as a break. */
  lemma InterruptStopsTheRest(c: Config, s: State, actions: seq<Action>, s': State)
    requires Reachable(c, s) && s.threadExit && Run(c, s, actions, s')
    ensures forall i :: 0 <= i < |s'.collected| && s'.collected[i].id >= s.dispatched - |s.input| ==>
      StatusOf(s'.collected[i]) == Interrupted
    ensures forall w :: 0 <= w < |s'.workers| && s'.workers[w].Running? ==>
      s'.workers[w].job.id < s.dispatched - |s.input|
  {
    ReachableInv(c, s);
    CutAtInterrupt(c, s);
    RunKeepsCut(c, s, actions, s', s.dispatched - |s.input|);
  }

  // ---------------------------------------------------------------------------------------------
  // Liveness

  function Weight(worker: Worker): nat {
    match worker
    case Idle => 0
    case Got(_) => 4
    case Running(_) => 3
    case Posting(_) => 2
    case Exited(_) => 0
  }

  function Weights(workers: seq<Worker>): nat {
    if workers == [] then 0 else Weights(workers[..|workers| - 1]) + Weight(workers[|workers| - 1])
  }

  lemma {:induction false} WeightsUpdate(workers: seq<Worker>, w: nat, worker: Worker)
    requires w < |workers|
    ensures Weights(workers[w := worker]) + Weight(workers[w]) == Weights(workers) + Weight(worker)
  {
    var n := |workers| - 1;
    if w < n {
      WeightsUpdate(workers[..n], w, worker);
      assert workers[w := worker][..n] == workers[..n][w := worker];
    } else {
      assert workers[w := worker][..n] == workers[..n];
    }
  }

  function Measure(c: Config, s: State): int {
    6 * (c.Total() - s.dispatched) + 5 * |s.input| + Weights(s.workers)
    + (|c.tests| - |s.collected|) + (c.processors - s.joined) + (if s.threadExit then 0 else 1)
  }

  lemma NextDecreases(c: Config, s: State, a: Action)
    requires Inv(c, s) && Enabled(c, s, a)
    ensures 0 <= Measure(c, Next(c, s, a)) < Measure(c, s)
  {
    NextInv(c, s, a);
    if a.Take? || a.Decide? || a.Finish? || a.Put? {
      WeightsUpdate(s.workers, a.w, Next(c, s, a).workers[a.w]);
    }
  }

  /** Every run is finite, whatever the schedule: it has at most Measure(Init) steps. */
  lemma {:induction false} RunsAreBounded(c: Config, s: State, actions: seq<Action>, s': State)
    requires Inv(c, s) && Run(c, s, actions, s')
    ensures |actions| <= Measure(c, s) - Measure(c, s')
    ensures Measure(c, s') >= 0
    decreases |actions|
  {
    if actions == [] {
    } else {
      NextInv(c, s, actions[0]);
      NextDecreases(c, s, actions[0]);
      RunsAreBounded(c, Next(c, s, actions[0]), actions[1..], s');
    }
  }

  /** With both queues empty and no worker busy, every test was collected and every break job used. */
  lemma AllCollected(c: Config, s: State)
    requires Inv(c, s) && s.dispatched == c.Total() && s.input == [] && s.output == []
    requires forall w :: 0 <= w < |s.workers| ==> s.workers[w].Idle? || s.workers[w].Exited?
    ensures forall id :: 0 <= id < |c.tests| ==> Times(id, s.collected) == 1
    ensures |s.collected| == |c.tests| && |Held(s.workers)| == c.processors
  {
    HeldMembers(s.workers);
    var n := |c.tests|;
    forall id | 0 <= id < c.Total()
      ensures Times(id, s.collected) == if id < n then 1 else 0
      ensures Times(id, Held(s.workers)) == if id < n then 0 else 1
    {
      assert TimesTaken(id, s) == 1;
      TimesMember(id, s.collected);
      TimesMember(id, Held(s.workers));
    }
    Pigeonhole(0, n, s.collected);
    Pigeonhole(n, c.Total(), Held(s.workers));
  }

  /** What workers hold has been taken from the input queue, each job once. */
  lemma HeldAreTaken(s: State)
    requires Conserved(s)
    ensures forall i :: 0 <= i < |Held(s.workers)| ==> Held(s.workers)[i].id < s.dispatched - |s.input|
    ensures forall id: nat :: Times(id, Held(s.workers)) <= 1
  {
    forall i | 0 <= i < |Held(s.workers)| ensures Held(s.workers)[i].id < s.dispatched - |s.input| {
      var id := Held(s.workers)[i].id;
      TimesMember(id, Held(s.workers));
      assert TimesTaken(id, s) > 0;
    }
    forall id: nat ensures Times(id, Held(s.workers)) <= 1 {
      assert TimesTaken(id, s) <= 1;
    }
  }

  /** When every worker has stopped, the input queue is drained. */
  lemma AllExitedDrains(c: Config, s: State)
    requires Inv(c, s) && s.dispatched == c.Total() && c.processors > 0
    requires forall w :: 0 <= w < |s.workers| ==> s.workers[w].Exited?
    ensures s.input == []
  {
    HeldMembers(s.workers);
    HeldAreTaken(s);
    var n, taken := |c.tests|, s.dispatched - |s.input|;
    assert n <= Held(s.workers)[0].id < taken;
    Pigeonhole(n, taken, Held(s.workers));
  }

  /** Progress: while the main thread has not finished, some thread can take a step without the help
      of a signal. */
  lemma NeverStuck(c: Config, s: State)
    requires Reachable(c, s) && (c.processors > 0 || c.tests == []) && !Final(c, s)
    ensures exists a :: Enabled(c, s, a) && a != Signal
  {
    ReachableInv(c, s);
    var a := Progress(c, s);
  }

  lemma Progress(c: Config, s: State) returns (a: Action)
    requires Inv(c, s) && (c.processors > 0 || c.tests == []) && !Final(c, s)
    ensures Enabled(c, s, a) && a != Signal
  {
    if s.dispatched < c.Total() {
      return Dispatch;
    }
    if w :| 0 <= w < |s.workers| && !s.workers[w].Idle? && !s.workers[w].Exited? {
      match s.workers[w] {
        case Got(_) => return Decide(w);
        case Running(_) => return Finish(w);
        case Posting(_) => return Put(w);
      }
    }
    if s.input != [] {
      if w :| 0 <= w < |s.workers| && s.workers[w].Idle? {
        return Take(w);
      }
      AllExitedDrains(c, s);
    }
    if |s.collected| < |c.tests| {
      if s.output == [] {
        AllCollected(c, s);
      }
      return Collect;
    }
    NoOutputLeft(c, s);
    AllCollected(c, s);
    HeldMembers(s.workers);
    return Join;
  }

  /** The collector's count is right: after one result per test the output queue is empty. */
  lemma NoOutputLeft(c: Config, s: State)
    requires Inv(c, s) && |s.collected| == |c.tests|
    ensures s.output == []
  {
    var n, both := |c.tests|, s.output + s.collected;
    forall id: nat ensures Times(id, both) <= 1 {
      TimesConcat(id, s.output, s.collected);
      assert TimesTaken(id, s) <= 1;
    }
    Pigeonhole(0, n, both);
  }

  /** The state of a pool without workers after `k` dispatches. */
  function Waiting(c: Config, k: nat): State {
    State(k, seq(k, i requires 0 <= i < k => NewJob(c, i)), [], [], [], 0, false)
  }

  lemma {:induction false} WaitingReachable(c: Config, k: nat)
    requires c.processors == 0 && k <= c.Total()
    ensures Reachable(c, Waiting(c, k))
  {
    if k == 0 {
      assert Init(c) == Waiting(c, 0);
      assert Run(c, Init(c), [], Waiting(c, 0));
    } else {
      WaitingReachable(c, k - 1);
      assert Waiting(c, k - 1).input + [NewJob(c, k - 1)] == Waiting(c, k).input;
      assert Next(c, Waiting(c, k - 1), Dispatch) == Waiting(c, k);
      ReachableNext(c, Waiting(c, k - 1), Dispatch);
    }
  }

  /** The worker is needed: without one, any test makes the collector wait forever. */
  lemma NoWorkersHang(c: Config)
    requires c.processors == 0 && c.tests != []
    ensures exists s :: Reachable(c, s) && !Final(c, s) && forall a :: Enabled(c, s, a) ==> a == Signal
  {
    WaitingReachable(c, c.Total());
    var s := Waiting(c, c.Total());
    assert !Final(c, s) && forall a :: Enabled(c, s, a) ==> a == Signal;
  }

  /** The pool always finishes if and only if it has a worker or nothing to run. */
  lemma FinishesIff(c: Config)
    ensures (forall s :: Reachable(c, s) && !Final(c, s) ==> exists a :: Enabled(c, s, a) && a != Signal)
       <==> c.processors > 0 || c.tests == []
  {
    if c.processors > 0 || c.tests == [] {
      forall s | Reachable(c, s) && !Final(c, s) ensures exists a :: Enabled(c, s, a) && a != Signal {
        NeverStuck(c, s);
      }
    } else {
      NoWorkersHang(c);
    }
  }

  /** In a final state both queues are empty, every worker has stopped on its own break job, and every
      test was collected exactly once. */
  lemma FinalIsComplete(c: Config, s: State)
    requires Reachable(c, s) && Final(c, s)
    ensures s.input == [] && s.output == []
    ensures forall w :: 0 <= w < |s.workers| ==> s.workers[w].Exited?
    ensures forall id :: 0 <= id < |c.tests| ==> Times(id, s.collected) == 1
  {
    ReachableInv(c, s);
    NoOutputLeft(c, s);
    if c.processors == 0 {
      CollectedDrains(c, s);
    } else {
      AllExitedDrains(c, s);
    }
    AllCollected(c, s);
  }

  /** Without workers, and so without break jobs, collecting as many results as tests drains the input
      queue too. */
  lemma CollectedDrains(c: Config, s: State)
    requires Inv(c, s) && s.dispatched == c.Total() && c.processors == 0 && |s.collected| == |c.tests|
    ensures s.input == []
  {
    var taken := s.dispatched - |s.input|;
    forall i | 0 <= i < |s.collected| ensures 0 <= s.collected[i].id < taken {
      var id := s.collected[i].id;
      TimesMember(id, s.collected);
      assert TimesTaken(id, s) > 0;
    }
    forall id: nat ensures Times(id, s.collected) <= 1 {
      assert TimesTaken(id, s) <= 1;
    }
    Pigeonhole(0, taken, s.collected);
  }

  // ---------------------------------------------------------------------------------------------
  // The counts and the return value

  datatype Status = Passed | Failed | ValgrindError | Crashed | Skipped | Interrupted

  function StatusOf(job: Job): Status {
    if job.isBreak then Interrupted
    else if job.isSkip then Skipped
    else if job.returnCode == 0 then Passed
    else if job.returnCode == 1 then Failed
    else if job.returnCode == 2 then ValgrindError
    else Crashed
  }

  function Count(status: Status, jobs: seq<Job>): nat {
    if jobs == [] then 0
    else Count(status, jobs[..|jobs| - 1]) + if StatusOf(jobs[|jobs| - 1]) == status then 1 else 0
  }

  datatype Tally = Tally(passed: nat, failed: nat, valgrind: nat, crashed: nat, skipped: nat)

  // The numbers of the jobs that were skipped, that returned a code, and that returned none of 0, 1 and 2.
  // A job marked as a break is in none of these.

  ghost function SkippedJobs(jobs: seq<Job>): set<int> {
    set i | 0 <= i < |jobs| && !jobs[i].isBreak && jobs[i].isSkip
  }

  ghost function JobsReturning(jobs: seq<Job>, code: int): set<int> {
    set i | 0 <= i < |jobs| && !jobs[i].isBreak && !jobs[i].isSkip && jobs[i].returnCode == code
  }

  ghost function JobsCrashed(jobs: seq<Job>): set<int> {
    set i | 0 <= i < |jobs| && !jobs[i].isBreak && !jobs[i].isSkip
            && jobs[i].returnCode != 0 && jobs[i].returnCode != 1 && jobs[i].returnCode != 2
  }

  ghost function BrokenOff(jobs: seq<Job>): set<int> {
    set i | 0 <= i < |jobs| && jobs[i].isBreak
  }

  ghost predicate TalliesJobs(jobs: seq<Job>, t: Tally) {
    && t.skipped == |SkippedJobs(jobs)|
    && t.passed == |JobsReturning(jobs, 0)|
    && t.failed == |JobsReturning(jobs, 1)|
    && t.valgrind == |JobsReturning(jobs, 2)|
    && t.crashed == |JobsCrashed(jobs)|
  }

  ghost function WithStatus(status: Status, jobs: seq<Job>): set<int> {
    set i | 0 <= i < |jobs| && StatusOf(jobs[i]) == status
  }

  lemma WithStatusLast(status: Status, jobs: seq<Job>)
    requires jobs != []
    ensures var n := |jobs| - 1;
      WithStatus(status, jobs)
      == if StatusOf(jobs[n]) == status then WithStatus(status, jobs[..n]) + {n} else WithStatus(status, jobs[..n])
  {
    var n := |jobs| - 1;
    assert forall i :: 0 <= i < n ==> jobs[..n][i] == jobs[i];
  }

  lemma {:induction false} CountIsSize(status: Status, jobs: seq<Job>)
    ensures Count(status, jobs) == |WithStatus(status, jobs)|
  {
    if jobs == [] {
      assert WithStatus(status, jobs) == {};
    } else {
      WithStatusLast(status, jobs);
      CountIsSize(status, jobs[..|jobs| - 1]);
    }
  }

  lemma CountIs(status: Status, jobs: seq<Job>, ids: set<int>)
    requires forall i :: i in ids <==> 0 <= i < |jobs| && StatusOf(jobs[i]) == status
    ensures Count(status, jobs) == |ids|
  {
    CountIsSize(status, jobs);
    assert ids == WithStatus(status, jobs);
  }

  lemma CountsTally(jobs: seq<Job>, t: Tally)
    ensures TalliesJobs(jobs, t) <==>
      t == Tally(Count(Passed, jobs), Count(Failed, jobs), Count(ValgrindError, jobs),
                 Count(Crashed, jobs), Count(Skipped, jobs))
    ensures Count(Interrupted, jobs) == |BrokenOff(jobs)|
  {
    CountIs(Passed, jobs, JobsReturning(jobs, 0));
    CountIs(Failed, jobs, JobsReturning(jobs, 1));
    CountIs(ValgrindError, jobs, JobsReturning(jobs, 2));
    CountIs(Crashed, jobs, JobsCrashed(jobs));
    CountIs(Skipped, jobs, SkippedJobs(jobs));
    CountIs(Interrupted, jobs, BrokenOff(jobs));
  }

  /** The collection loop over the jobs it gets, in the order it gets them. */
  method Account(jobs: seq<Job>) returns (t: Tally)
    ensures t == Tally(Count(Passed, jobs), Count(Failed, jobs), Count(ValgrindError, jobs),
                       Count(Crashed, jobs), Count(Skipped, jobs))
    ensures TalliesJobs(jobs, t)
  {
    var passed, failed, valgrind, crashed, skipped := 0, 0, 0, 0, 0;
    for i := 0 to |jobs|
      invariant passed == Count(Passed, jobs[..i]) && failed == Count(Failed, jobs[..i])
      invariant valgrind == Count(ValgrindError, jobs[..i]) && crashed == Count(Crashed, jobs[..i])
      invariant skipped == Count(Skipped, jobs[..i])
    {
      var job := jobs[i];
      assert jobs[..i + 1][..i] == jobs[..i];
      if job.isBreak {
        continue;
      }
      if job.isSkip {
        skipped := skipped + 1;
      } else if job.returnCode == 0 {
        passed := passed + 1;
      } else if job.returnCode == 1 {
        failed := failed + 1;
      } else if job.returnCode == 2 {
        valgrind := valgrind + 1;
      } else {
        crashed := crashed + 1;
      }
    }
    assert jobs[..|jobs|] == jobs;
    t := Tally(passed, failed, valgrind, crashed, skipped);
    CountsTally(jobs, t);
  }

  function ReturnValue(c: Config, jobs: seq<Job>): int {
    if Count(Passed, jobs) + Count(Skipped, jobs) == |c.tests| then 0 else 1
  }

  /** The tests processed one by one in dispatch order. */
  function Sequential(c: Config): seq<Job> {
    seq(|c.tests|, i requires 0 <= i < |c.tests| => Outcome(c, i))
  }

  lemma {:induction false} CountConcat(status: Status, a: seq<Job>, b: seq<Job>)
    ensures Count(status, a + b) == Count(status, a) + Count(status, b)
  {
    if b == [] {
      assert a + b == a;
    } else {
      CountConcat(status, a, b[..|b| - 1]);
      assert (a + b)[..|a + b| - 1] == a + b[..|b| - 1];
    }
  }

  lemma CountWithout(status: Status, jobs: seq<Job>, i: nat)
    requires i < |jobs|
    ensures Count(status, jobs)
         == Count(status, jobs[..i] + jobs[i + 1..]) + if StatusOf(jobs[i]) == status then 1 else 0
  {
    assert jobs == jobs[..i] + ([jobs[i]] + jobs[i + 1..]);
    CountConcat(status, jobs[..i], [jobs[i]] + jobs[i + 1..]);
    CountConcat(status, [jobs[i]], jobs[i + 1..]);
    CountConcat(status, jobs[..i], jobs[i + 1..]);
    assert [jobs[i]][..0] == [];
  }

  /** Counts depend on the schedule only through which jobs were interrupted. */
  lemma {:induction false} CountsAgree(c: Config, status: Status, a: seq<Job>, b: seq<Job>, threadExit: bool)
    requires status != Interrupted
    requires forall id: nat :: Times(id, a) == Times(id, b)
    requires forall i :: 0 <= i < |a| ==> Done(c, a[i], threadExit)
    requires forall i :: 0 <= i < |b| ==> b[i].id < |c.tests| && b[i] == Outcome(c, b[i].id)
    ensures Count(status, a) <= Count(status, b) <= Count(status, a) + Count(Interrupted, a)
    decreases |a|
  {
    if a == [] {
      if b != [] {
        TimesMember(b[0].id, b);
      }
    } else {
      var n := |a| - 1;
      TimesMember(a[n].id, a);
      TimesMember(a[n].id, b);
      var i :| 0 <= i < |b| && b[i].id == a[n].id;
      var rest := b[..i] + b[i + 1..];
      forall id: nat ensures Times(id, a[..n]) == Times(id, rest) {
        TimesWithout(id, b, i);
      }
      CountsAgree(c, status, a[..n], rest, threadExit);
      CountWithout(status, b, i);
    }
  }

  lemma {:induction false} TimesSequential(c: Config, id: nat, n: nat)
    requires n <= |c.tests|
    ensures Times(id, Sequential(c)[..n]) == if id < n then 1 else 0
  {
    if n == 0 {
    } else {
      TimesSequential(c, id, n - 1);
      assert Sequential(c)[..n][..n - 1] == Sequential(c)[..n - 1];
    }
  }

  lemma FinalCounts(c: Config, s: State, status: Status)
    requires Reachable(c, s) && Final(c, s) && status != Interrupted
    ensures Count(status, s.collected) <= Count(status, Sequential(c))
    ensures Count(status, Sequential(c)) <= Count(status, s.collected) + Count(Interrupted, s.collected)
  {
    ReachableInv(c, s);
    FinalIsComplete(c, s);
    assert Sequential(c)[..|c.tests|] == Sequential(c);
    forall id: nat ensures Times(id, s.collected) == Times(id, Sequential(c)) {
      TimesSequential(c, id, |c.tests|);
      TimesMember(id, s.collected);
    }
    CountsAgree(c, status, s.collected, Sequential(c), s.threadExit);
  }

  lemma {:induction false} NoInterrupt(c: Config, jobs: seq<Job>)
    requires forall i :: 0 <= i < |jobs| ==> Done(c, jobs[i], false)
    ensures Count(Interrupted, jobs) == 0
  {
    if jobs == [] {
    } else {
      NoInterrupt(c, jobs[..|jobs| - 1]);
    }
  }

  /** Schedule independence: without an interrupt the reported counts are those of running the tests
      one by one, for every number of workers and every interleaving. */
  lemma CountsAreScheduleIndependent(c: Config, s: State, status: Status)
    requires Reachable(c, s) && Final(c, s) && !s.threadExit
    ensures status != Interrupted ==> Count(status, s.collected) == Count(status, Sequential(c))
    ensures Count(Interrupted, s.collected) == 0
  {
    ReachableInv(c, s);
    NoInterrupt(c, s.collected);
    if status != Interrupted {
      FinalCounts(c, s, status);
    }
  }

  lemma {:induction false} CountsSum(jobs: seq<Job>)
    ensures Count(Passed, jobs) + Count(Failed, jobs) + Count(ValgrindError, jobs) + Count(Crashed, jobs)
            + Count(Skipped, jobs) + Count(Interrupted, jobs) == |jobs|
    ensures Count(Passed, jobs) + Count(Skipped, jobs) == |jobs|
       <==> forall i :: 0 <= i < |jobs| ==> StatusOf(jobs[i]) == Passed || StatusOf(jobs[i]) == Skipped
    ensures Count(Interrupted, jobs) == 0 <==> forall i :: 0 <= i < |jobs| ==> StatusOf(jobs[i]) != Interrupted
  {
    if jobs == [] {
    } else {
      var n := |jobs| - 1;
      CountsSum(jobs[..n]);
      assert forall i :: 0 <= i < n ==> jobs[..n][i] == jobs[i];
    }
  }

  /** With or without interrupts, the five counts and the interrupted jobs make up all tests, and the
      return value is 0 exactly when no job was interrupted and every test was skipped or passes. */
  lemma ReturnValueIsExact(c: Config, s: State)
    requires Reachable(c, s) && Final(c, s)
    ensures Count(Passed, s.collected) + Count(Failed, s.collected) + Count(ValgrindError, s.collected)
            + Count(Crashed, s.collected) + Count(Skipped, s.collected) + Count(Interrupted, s.collected) == |c.tests|
    ensures ReturnValue(c, s.collected) == 0 <==>
      Count(Interrupted, s.collected) == 0
      && forall id :: 0 <= id < |c.tests| ==> c.tests[id].skip || c.tests[id].code == 0
  {
    ReachableInv(c, s);
    FinalIsComplete(c, s);
    var jobs := s.collected;
    CountsSum(jobs);
    if ReturnValue(c, jobs) == 0 {
      forall id | 0 <= id < |c.tests| ensures c.tests[id].skip || c.tests[id].code == 0 {
        TimesMember(id, jobs);
        var i :| 0 <= i < |jobs| && jobs[i].id == id;
        assert Done(c, jobs[i], s.threadExit);
      }
    }
  }

  ghost function TestsToSkip(c: Config): set<int> {
    set id | 0 <= id < |c.tests| && c.tests[id].skip
  }

  ghost function TestsReturning(c: Config, code: int): set<int> {
    set id | 0 <= id < |c.tests| && !c.tests[id].skip && c.tests[id].code == code
  }

  ghost function TestsCrashing(c: Config): set<int> {
    set id | 0 <= id < |c.tests| && !c.tests[id].skip
             && c.tests[id].code != 0 && c.tests[id].code != 1 && c.tests[id].code != 2
  }

  /** `count` is the size of `tests`, short by at most the interrupted ones. */
  predicate ShortBy(count: nat, tests: set<int>, interrupted: nat) {
    count <= |tests| <= count + interrupted
  }

  /** The tally against the tests themselves: the tests to skip and, among the others, those that return
      0, 1, 2 and another code. */
  ghost predicate TalliesTests(c: Config, t: Tally, interrupted: nat) {
    && ShortBy(t.skipped, TestsToSkip(c), interrupted)
    && ShortBy(t.passed, TestsReturning(c, 0), interrupted)
    && ShortBy(t.failed, TestsReturning(c, 1), interrupted)
    && ShortBy(t.valgrind, TestsReturning(c, 2), interrupted)
    && ShortBy(t.crashed, TestsCrashing(c), interrupted)
  }

  lemma SequentialSizes(c: Config)
    ensures Count(Skipped, Sequential(c)) == |TestsToSkip(c)|
    ensures Count(Passed, Sequential(c)) == |TestsReturning(c, 0)|
    ensures Count(Failed, Sequential(c)) == |TestsReturning(c, 1)|
    ensures Count(ValgrindError, Sequential(c)) == |TestsReturning(c, 2)|
    ensures Count(Crashed, Sequential(c)) == |TestsCrashing(c)|
  {
    CountIs(Skipped, Sequential(c), TestsToSkip(c));
    CountIs(Passed, Sequential(c), TestsReturning(c, 0));
    CountIs(Failed, Sequential(c), TestsReturning(c, 1));
    CountIs(ValgrindError, Sequential(c), TestsReturning(c, 2));
    CountIs(Crashed, Sequential(c), TestsCrashing(c));
  }

  /** For every number of workers and every interleaving: the tally of the collected jobs is that of the
      tests, short by at most the jobs that came back marked as breaks; without an interrupt none did. */
  lemma FinalTally(c: Config, s: State, t: Tally)
    requires Reachable(c, s) && Final(c, s) && TalliesJobs(s.collected, t)
    ensures TalliesTests(c, t, |BrokenOff(s.collected)|)
    ensures !s.threadExit ==> BrokenOff(s.collected) == {}
    ensures t.skipped + t.passed + t.failed + t.valgrind + t.crashed + |BrokenOff(s.collected)| == |c.tests|
  {
    CountsTally(s.collected, t);
    SequentialSizes(c);
    FinalCounts(c, s, Passed);
    FinalCounts(c, s, Failed);
    FinalCounts(c, s, ValgrindError);
    FinalCounts(c, s, Crashed);
    FinalCounts(c, s, Skipped);
    ReturnValueIsExact(c, s);
    if !s.threadExit {
      CountsAreScheduleIndependent(c, s, Interrupted);
    }
  }

  /** A worker never runs a test to be skipped, nor a break job. */
  lemma SkippedNeverRuns(c: Config, s: State, w: nat)
    requires Reachable(c, s) && w < |s.workers| && s.workers[w].Running?
    ensures s.workers[w].job.id < |c.tests| && !c.tests[s.workers[w].job.id].skip && !s.workers[w].job.isBreak
  {
    ReachableInv(c, s);
  }

  /** The results collected so far and those still queued are all results, in the order of posting: a
      post appends one, and no other step changes the list. */
  lemma ResultsKeepPostingOrder(c: Config, s: State, a: Action)
    requires Enabled(c, s, a)
    ensures var s' := Next(c, s, a);
      s'.collected + s'.output
      == if a.Put? then s.collected + s.output + [s.workers[a.w].job] else s.collected + s.output
  {
    if a.Collect? {
      assert s.output == [s.output[0]] + s.output[1..];
      ConcatAssociative(s.collected, [s.output[0]], s.output[1..]);
    } else if a.Put? {
      ConcatAssociative(s.collected, s.output, [s.workers[a.w].job]);
    }
  }

  // ---------------------------------------------------------------------------------------------
  // The threads as code: each method is one atomic step of one thread

  class TestRunner {
    const c: Config
    var dispatched: nat
    var input: seq<Job>
    var workers: seq<Worker>
    var output: seq<Job>
    var collected: seq<Job>
    var joined: nat
    var threadExit: bool

    function View(): State
      reads this
    {
      State(dispatched, input, workers, output, collected, joined, threadExit)
    }

    constructor (c: Config)
      ensures this.c == c && View() == Init(c)
    {
      this.c := c;
      dispatched, input, output, collected, joined, threadExit := 0, [], [], [], 0, false;
      workers := seq(c.processors, _ => Idle);
    }

    method PutInput()
      requires Enabled(c, View(), Dispatch)
      modifies this
      ensures View() == Next(c, old(View()), Dispatch)
    {
      var job: Job;
      if dispatched < |c.tests| {
        job := Job(dispatched, false, c.tests[dispatched].skip, 0);
      } else {
        job := Job(dispatched, true, false, 0);
      }
      input := input + [job];
      dispatched := dispatched + 1;
    }

    method GetOutput()
      requires Enabled(c, View(), Collect)
      modifies this
      ensures View() == Next(c, old(View()), Collect)
    {
      collected := collected + [output[0]];
      output := output[1..];
    }

    method JoinNext()
      requires Enabled(c, View(), Join)
      modifies this
      ensures View() == Next(c, old(View()), Join)
    {
      joined := joined + 1;
    }

    method SigintHook()
      requires Enabled(c, View(), Signal)
      modifies this
      ensures View() == Next(c, old(View()), Signal)
    {
      threadExit := true;
    }

    /** One step of worker `w`. */
    method WorkerStep(w: nat, ghost a: Action)
      requires a == Take(w) || a == Decide(w) || a == Finish(w) || a == Put(w)
      requires Enabled(c, View(), a)
      modifies this
      ensures View() == Next(c, old(View()), a)
    {
      match workers[w] {
        case Idle =>
          var job := input[0];
          input := input[1..];
          workers := workers[w := Got(job)];
        case Got(job) =>
          if job.isBreak {
            workers := workers[w := Exited(job)];
          } else if threadExit {
            workers := workers[w := Posting(job.(isBreak := true))];
          } else if job.isSkip {
            workers := workers[w := Posting(job)];
          } else {
            workers := workers[w := Running(job)];
          }
        case Running(job) =>
          workers := workers[w := Posting(job.(returnCode := c.tests[job.id].code))];
        case Posting(job) =>
          output := output + [job];
          workers := workers[w := Idle];
      }
    }

    /** Any schedule of the threads and the signal: each round runs some step that can run. */
    method RunTests() returns (t: Tally, code: int)
      requires View() == Init(c) && (c.processors > 0 || c.tests == [])
      modifies this
      ensures Final(c, View()) && Reachable(c, View())
      ensures TalliesTests(c, t, |BrokenOff(collected)|) && (!threadExit ==> BrokenOff(collected) == {})
      ensures code == 0 <==>
        Count(Interrupted, collected) == 0
        && forall id :: 0 <= id < |c.tests| ==> c.tests[id].skip || c.tests[id].code == 0
    {
      assert Run(c, Init(c), [], View());
      while !Final(c, View())
        invariant Reachable(c, View())
        decreases Measure(c, View())
      {
        NeverStuck(c, View());
        var a :| Enabled(c, View(), a);
        ReachableInv(c, View());
        NextDecreases(c, View(), a);
        ReachableNext(c, View(), a);
        match a {
          case Dispatch => PutInput();
          case Collect => GetOutput();
          case Join => JoinNext();
          case Signal => SigintHook();
          case Take(w) => WorkerStep(w, a);
          case Decide(w) => WorkerStep(w, a);
          case Finish(w) => WorkerStep(w, a);
          case Put(w) => WorkerStep(w, a);
        }
      }
      t := Account(collected);
      ReturnValueIsExact(c, View());
      FinalTally(c, View(), t);
      code := if t.passed + t.skipped == |c.tests| then 0 else 1;
    }
  }

  lemma ReachableNext(c: Config, s: State, a: Action)
    requires Reachable(c, s) && Enabled(c, s, a)
    ensures Reachable(c, Next(c, s, a))
  {
    var actions :| Run(c, Init(c), actions, s);
    RunSnoc(c, Init(c), actions, s, a);
  }

  lemma {:induction false} RunSnoc(c: Config, s0: State, actions: seq<Action>, s: State, a: Action)
    requires Run(c, s0, actions, s) && Enabled(c, s, a)
    ensures Run(c, s0, actions + [a], Next(c, s, a))
    decreases |actions|
  {
    if actions == [] {
      assert Run(c, Next(c, s, a), [], Next(c, s, a));
      assert (actions + [a])[1..] == [];
    } else {
      RunSnoc(c, Next(c, s0, actions[0]), actions[1..], s, a);
      assert (actions + [a])[1..] == actions[1..] + [a];
    }
  }
}
