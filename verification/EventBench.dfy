/** The scheduler benchmark (utils/bench-scheduler.cc): a callback keeps the number of pending events
    constant until the requested number of events has run. */
module EventBench {
  import opened Common

  /** A time-ordered queue: an event goes behind those with the same time. */
  function Insert(queue: seq<int>, at: int): seq<int> {
    if queue == [] then [at]
    else if at < queue[0] then [at] + queue
    else [queue[0]] + Insert(queue[1..], at)
  }

  lemma {:induction false} InsertMembers(queue: seq<int>, at: int)
    ensures multiset(Insert(queue, at)) == multiset(queue) + multiset{at}
    ensures |Insert(queue, at)| == |queue| + 1
    ensures forall x :: x in Insert(queue, at) <==> x in queue || x == at
  {
    if queue == [] {
    } else {
      InsertMembers(queue[1..], at);
      assert queue == [queue[0]] + queue[1..];
    }
  }

  lemma {:induction false} InsertSorted(queue: seq<int>, at: int)
    requires Ascending(queue)
    ensures Ascending(Insert(queue, at))
  {
    if queue != [] && at >= queue[0] {
      InsertSorted(queue[1..], at);
      InsertMembers(queue[1..], at);
      SortedCons(queue[0], Insert(queue[1..], at));
    }
  }

  lemma SortedCons(x: int, s: seq<int>)
    requires Ascending(s) && forall y :: y in s ==> x <= y
    ensures Ascending([x] + s)
  {
    forall i, j | 0 <= i < j < |[x] + s| ensures ([x] + s)[i] <= ([x] + s)[j] {
      assert ([x] + s)[j] == s[j - 1] && s[j - 1] in s;
    }
  }

  lemma {:induction false} InsertBehind(past: seq<int>, queue: seq<int>, at: int)
    requires forall i :: 0 <= i < |past| ==> past[i] <= at
    ensures past + Insert(queue, at) == Insert(past + queue, at)
  {
    if past == [] {
      assert past + Insert(queue, at) == Insert(queue, at) && past + queue == queue;
    } else {
      InsertBehind(past[1..], queue, at);
      assert (past + queue)[1..] == past[1..] + queue;
      assert past + Insert(queue, at) == [past[0]] + (past[1..] + Insert(queue, at));
    }
  }

  ghost function Occurs(x: int, s: seq<int>): nat {
    if s == [] then 0 else Occurs(x, s[..|s| - 1]) + if s[|s| - 1] == x then 1 else 0
  }

  /** The same events, in any order. */
  ghost predicate SameEvents(a: seq<int>, b: seq<int>) {
    forall x :: Occurs(x, a) == Occurs(x, b)
  }

  lemma {:induction false} OccursIsMultiplicity(x: int, s: seq<int>)
    ensures Occurs(x, s) == multiset(s)[x]
  {
    if s == [] {
    } else {
      var n := |s| - 1;
      OccursIsMultiplicity(x, s[..n]);
      assert s == s[..n] + [s[n]];
    }
  }

  lemma SameEventsIff(a: seq<int>, b: seq<int>)
    ensures SameEvents(a, b) <==> multiset(a) == multiset(b)
  {
    forall x ensures Occurs(x, a) == multiset(a)[x] && Occurs(x, b) == multiset(b)[x] {
      OccursIsMultiplicity(x, a);
      OccursIsMultiplicity(x, b);
    }
    if SameEvents(a, b) {
      forall x ensures multiset(a)[x] == multiset(b)[x] {
        assert Occurs(x, a) == Occurs(x, b);
      }
    }
  }

  /** The executed events followed by the pending ones: in order of time, and exactly those that were
      planned.  No event is lost or invented, and time never runs backwards. */
  ghost predicate Timeline(now: int, queue: seq<int>, executed: seq<int>, planned: seq<int>) {
    && Ascending(executed + queue)
    && SameEvents(executed + queue, planned)
    && now == if executed == [] then 0 else executed[|executed| - 1]
  }

  lemma RunHead(now: int, queue: seq<int>, executed: seq<int>, planned: seq<int>)
    requires Timeline(now, queue, executed, planned) && queue != []
    ensures Timeline(queue[0], queue[1..], executed + [queue[0]], planned)
  {
    assert executed + queue == (executed + [queue[0]]) + queue[1..];
  }

  lemma InsertSameEvents(all: seq<int>, planned: seq<int>, at: int)
    requires SameEvents(all, planned)
    ensures SameEvents(Insert(all, at), planned + [at])
  {
    SameEventsIff(all, planned);
    InsertMembers(all, at);
    SameEventsIff(Insert(all, at), planned + [at]);
  }

  lemma ScheduleAt(now: int, queue: seq<int>, executed: seq<int>, planned: seq<int>, at: int)
    requires Timeline(now, queue, executed, planned) && now <= at
    ensures Timeline(now, Insert(queue, at), executed, planned + [at])
    ensures |Insert(queue, at)| == |queue| + 1
  {
    forall i | 0 <= i < |executed| ensures executed[i] <= at {
      assert (executed + queue)[i] == executed[i];
      assert (executed + queue)[|executed| - 1] == now;
    }
    InsertBehind(executed, queue, at);
    InsertSorted(executed + queue, at);
    InsertSameEvents(executed + queue, planned, at);
    InsertMembers(queue, at);
  }

  /** The first `population` events are planned at time 0, and number population + k by the executed event
      number k; each for a delay later, by the draws from number `first` on. */
  ghost predicate FollowsPlan(
      planned: seq<int>, executed: seq<int>, population: nat, first: nat, events: nat, delay: nat -> nat)
  {
    && |planned| == population + events && events <= |executed|
    && (forall i :: 0 <= i < population ==> planned[i] == delay(first + i))
    && (forall k :: 0 <= k < events ==> planned[population + k] == executed[k] + delay(first + (population + k)))
  }

  /** A counted event extends the plan; the last one, which stops the simulator, does not. */
  lemma PlanNext(planned: seq<int>, executed: seq<int>, population: nat, first: nat, events: nat, delay: nat -> nat,
                 at: int, planned': seq<int>, executed': seq<int>)
    requires FollowsPlan(planned, executed, population, first, events, delay) && |executed| == events
    requires executed' == executed + [at]
    ensures planned' == planned ==> FollowsPlan(planned', executed', population, first, events, delay)
    ensures planned' == planned + [at + delay(first + |planned|)] ==>
      FollowsPlan(planned', executed', population, first, events + 1, delay)
  {
    if planned' == planned + [at + delay(first + |planned|)] {
      forall k | 0 <= k < events + 1
        ensures planned'[population + k] == executed'[k] + delay(first + (population + k))
      {
        assert k == events ==> population + k == |planned|;
      }
    }
  }

  datatype Result = Result(pop: nat, events: nat)

  /** The benchmark with the simulator it drives: the pending events, all of them `Cb`, by time. */
  class Bench {
    const population: nat
    const total: nat
    var count: nat
    /** The random stream of delays and how many were drawn. */
    const delay: nat -> nat
    var drawn: nat
    // The simulator
    var now: int
    var queue: seq<int>
    var stopped: bool
    // History of the current run
    /** The times of the scheduled events, in the order of scheduling, and the number of the first draw. */
    ghost var planned: seq<int>
    ghost var first: nat
    ghost var executed: seq<int>
    ghost var pendingAfter: seq<int>

    constructor (population: nat, total: nat, delay: nat -> nat)
      ensures this.population == population && this.total == total && Idle()
    {
      this.population, this.total, this.delay := population, total, delay;
      count, drawn, now, queue, stopped := 0, 0, 0, [], false;
      planned, first, executed, pendingAfter := [], 0, [], [];
    }

    ghost predicate Idle()
      reads this
    {
      now == 0 && queue == [] && !stopped
    }

    ghost predicate Consistent()
      reads this
    {
      Timeline(now, queue, executed, planned)
    }

    /** Every event is scheduled one delay, the next one drawn, after the event that schedules it. */
    ghost predicate Planned(events: nat)
      reads this
    {
      drawn == first + |planned| && FollowsPlan(planned, executed, population, first, events, delay)
    }

    method Schedule()
      requires Consistent()
      modifies this`queue, this`drawn, this`planned
      ensures Consistent() && |queue| == |old(queue)| + 1
      ensures queue == Insert(old(queue), now + delay(old(drawn))) && drawn == old(drawn) + 1
      ensures planned == old(planned) + [now + delay(old(drawn))]
    {
      var at := now + delay(drawn);
      ScheduleAt(now, queue, executed, planned, at);
      queue := Insert(queue, at);
      drawn := drawn + 1;
      planned := planned + [at];
    }

    method Cb()
      requires Consistent() && count <= total
      modifies this`queue, this`drawn, this`planned, this`count, this`stopped
      ensures Consistent()
      ensures old(count) < total ==> count == old(count) + 1 && |queue| == |old(queue)| + 1 && stopped == old(stopped)
      ensures old(count) < total ==> queue == Insert(old(queue), now + delay(old(drawn)))
      ensures old(count) < total ==> drawn == old(drawn) + 1 && planned == old(planned) + [now + delay(old(drawn))]
      ensures old(count) == total ==> drawn == old(drawn) && planned == old(planned)
      ensures old(count) == total ==> count == total && queue == old(queue) && stopped
    {
      if count >= total {
        stopped := true;
        return;
      }
      Schedule();
      count := count + 1;
    }

    /** Takes the earliest event off the queue and runs it. */
    method RunNext()
      requires Consistent() && queue != [] && count <= total
      modifies this
      ensures Consistent()
      ensures executed == old(executed) + [old(queue)[0]]
      ensures pendingAfter == old(pendingAfter) && first == old(first)
      ensures old(count) < total ==>
        drawn == old(drawn) + 1 && planned == old(planned) + [old(queue)[0] + delay(old(drawn))]
      ensures old(count) == total ==> drawn == old(drawn) && planned == old(planned)
      ensures old(count) < total ==> count == old(count) + 1 && |queue| == |old(queue)| && stopped == old(stopped)
      ensures old(count) == total ==> count == total && |queue| == |old(queue)| - 1 && stopped
    {
      var at := queue[0];
      RunHead(now, queue, executed, planned);
      now, queue, executed := at, queue[1..], executed + [at];
      Cb();
    }

    /** The same, with the plan. */
    method RunPlanned()
      requires Consistent() && queue != [] && count <= total && Planned(count) && |executed| == count
      modifies this
      ensures Consistent() && Planned(count)
      ensures |executed| == |old(executed)| + 1 && pendingAfter == old(pendingAfter) && first == old(first)
      ensures old(count) < total ==> count == old(count) + 1 && |queue| == |old(queue)| && stopped == old(stopped)
      ensures old(count) == total ==> count == total && |queue| == |old(queue)| - 1 && stopped
    {
      ghost var at, planned0, executed0, events := queue[0], planned, executed, count;
      RunNext();
      PlanNext(planned0, executed0, population, first, events, delay, at, planned, executed);
    }

    /** Schedules the population. */
    method Populate()
      requires Consistent() && queue == executed == planned == [] && !stopped && drawn == first
      modifies this`queue, this`drawn, this`planned
      ensures Consistent() && |queue| == population && Planned(0)
    {
      var i := 0;
      while i < population
        invariant i <= population
        invariant Consistent() && |queue| == |planned| == i && drawn == first + i
        invariant forall k :: 0 <= k < i ==> planned[k] == delay(first + k)
      {
        Schedule();
        i := i + 1;
      }
    }

    ghost predicate RestoresPopulation()
      reads this
    {
      forall k :: 0 <= k < |pendingAfter| ==> pendingAfter[k] == population - if k == total then 1 else 0
    }

    /** Simulator::Run: until the queue is empty or the simulator was stopped. */
    method RunSimulator()
      requires Consistent() && executed == pendingAfter == [] && |queue| == population && count == 0 && !stopped
      requires Planned(0)
      modifies this
      ensures Consistent() && RestoresPopulation() && Planned(count) && first == old(first)
      ensures count == if population == 0 then 0 else total
      ensures |executed| == |pendingAfter| == if population == 0 then 0 else total + 1
      ensures |queue| == if population == 0 then 0 else population - 1
    {
      while queue != [] && !stopped
        invariant Consistent() && count <= total && RestoresPopulation() && Planned(count) && first == old(first)
        invariant |executed| == |pendingAfter| == count + if stopped then 1 else 0
        invariant |queue| == population - if stopped then 1 else 0
        invariant stopped ==> count == total
        invariant population == 0 ==> count == 0
        decreases total - count, !stopped
      {
        RunPlanned();
        pendingAfter := pendingAfter + [|queue|];
      }
    }

    /** One run.  The population is restored by every callback until `total` callbacks have counted;
        the next one stops the simulator.  With a positive population the run therefore counts exactly
        `total` events, whatever was run before. */
    method Run() returns (r: Result, ghost left: seq<int>)
      requires Idle()
      modifies this
      ensures Idle()
      ensures r.pop == population
      ensures r.events == total <==> population > 0 || total == 0
      ensures population == 0 ==> r.events == 0
      ensures |executed| == |pendingAfter| == if population == 0 then 0 else total + 1
      ensures RestoresPopulation()
      ensures |left| == if population == 0 then 0 else population - 1
      ensures Ascending(executed + left) && multiset(executed + left) == multiset(planned)
      ensures Planned(r.events) && first == old(drawn)
    {
      count := 0;
      planned, first, executed, pendingAfter := [], drawn, [], [];
      Populate();
      RunSimulator();
      left := queue;
      SameEventsIff(executed + left, planned);
      r := Result(population, count);
      now, queue, stopped := 0, [], false;
    }
  }

  /** The priming run and the data runs on one Bench: all count the same number of events. */
  method RunSuite(population: nat, total: nat, runs: nat, delay: nat -> nat)
    returns (prime: Result, results: seq<Result>)
    ensures |results| == runs
    ensures population > 0 ==> prime == Result(population, total)
    ensures population > 0 ==> forall i :: 0 <= i < runs ==> results[i] == Result(population, total)
    ensures population == 0 ==> prime == Result(0, 0) && forall i :: 0 <= i < runs ==> results[i] == Result(0, 0)
  {
    var bench := new Bench(population, total, delay);
    ghost var left;
    prime, left := bench.Run();
    results := [];
    for i := 0 to runs
      invariant bench.Idle() && bench.population == population && bench.total == total
      invariant |results| == i
      invariant forall k :: 0 <= k < i ==> results[k] == Result(population, if population > 0 then total else 0)
    {
      var r;
      r, left := bench.Run();
      results := results + [r];
    }
  }
}
