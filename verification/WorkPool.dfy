/** The concurrent mapper of the plan-necessity evaluation: a fixed number of lanes share one
    `nextIndex` counter.  A lane reads and advances the counter with no suspension point in
    between, so a claim is one atomic step; the worker's answer is stored in a later step.  Every
    interleaving of the lanes' steps is a sequence of events. */
module WorkPool {
  import opened Options

  datatype Lane = Ready | Busy(index: nat) | Done

  /** One call of the worker: who made it, for which slot, on which input. */
  datatype Call<+I> = Call(lane: nat, index: nat, input: I)

  datatype Event = Claim(lane: nat) | Complete(lane: nat)

  datatype State<+I, +O> = State(nextIndex: nat, lanes: seq<Lane>, results: seq<Option<O>>, calls: seq<Call<I>>)

  /** The evaluation being run.  `worker(k, x)` is the value with which the worker's k-th call, made
      on input x, resolves, so equal inputs may resolve differently. */
  datatype Job<!I, !O> = Job(inputs: seq<I>, concurrency: int, worker: (nat, I) -> O)

  function LaneCount<I, O>(job: Job<I, O>): nat {
    if job.concurrency <= 0 then 0
    else if job.concurrency <= |job.inputs| then job.concurrency
    else |job.inputs|
  }

  function Init<I, O>(job: Job<I, O>): State<I, O> {
    State(0, seq(LaneCount(job), _ => Ready), seq(|job.inputs|, _ => None), [])
  }

  predicate Enabled<I, O>(s: State<I, O>, e: Event) {
    && e.lane < |s.lanes|
    && (e.Claim? ==> s.lanes[e.lane].Ready?)
    && (e.Complete? ==>
      s.lanes[e.lane].Busy? && s.lanes[e.lane].index < |s.results| && s.lanes[e.lane].index < |s.calls|)
  }

  function Step<I, O>(job: Job<I, O>, s: State<I, O>, e: Event): State<I, O>
    requires Enabled(s, e)
  {
    match e
    case Claim(l) =>
      var index := s.nextIndex;
      if index >= |job.inputs| then
        s.(nextIndex := index + 1, lanes := s.lanes[l := Done])
      else
        s.(nextIndex := index + 1, lanes := s.lanes[l := Busy(index)], calls :=
          s.calls + [Call(l, index, job.inputs[index])])
    case Complete(l) =>
      var index := s.lanes[l].index;
      s.(lanes := s.lanes[l := Ready],
         results := s.results[index := Some(job.worker(index, s.calls[index].input))])
  }

  /** The state after a schedule, or None when some event of it is not enabled. */
  function Run<I, O>(job: Job<I, O>, schedule: seq<Event>): Option<State<I, O>> {
    if schedule == [] then Some(Init(job))
    else
      var before := Run(job, schedule[..|schedule| - 1]);
      var e := schedule[|schedule| - 1];
      if before.Some? && Enabled(before.value, e) then Some(Step(job, before.value, e)) else None
  }

  predicate Finished<I, O>(s: State<I, O>) {
    forall l :: 0 <= l < |s.lanes| ==> s.lanes[l].Done?
  }

  function Count<T>(xs: seq<T>, p: T -> bool): nat {
    if xs == [] then 0 else Count(xs[..|xs| - 1], p) + (if p(xs[|xs| - 1]) then 1 else 0)
  }

  predicate IsBusy(l: Lane) { l.Busy? }

  predicate IsDone(l: Lane) { l.Done? }

  predicate IsFilled<O>(r: Option<O>) { r.Some? }

  function InFlight<I, O>(s: State<I, O>): nat { Count(s.lanes, IsBusy) }

  function Exited<I, O>(s: State<I, O>): nat { Count(s.lanes, IsDone) }

  function Stored<I, O>(s: State<I, O>): nat { Count(s.results, IsFilled) }

  lemma {:induction false} CountUpdate<T>(xs: seq<T>, p: T -> bool, k: nat, x: T)
    requires k < |xs|
    ensures Count(xs[k := x], p) + (if p(xs[k]) then 1 else 0) == Count(xs, p) + (if p(x) then 1 else 0)
  {
    var last := |xs| - 1;
    if k == last {
      assert xs[k := x][..last] == xs[..last];
    } else {
      assert xs[k := x][..last] == xs[..last][k := x];
      CountUpdate(xs[..last], p, k, x);
    }
  }

  lemma {:induction false} CountExtremes<T>(xs: seq<T>, p: T -> bool)
    ensures Count(xs, p) <= |xs|
    ensures Count(xs, p) == |xs| <==> forall k :: 0 <= k < |xs| ==> p(xs[k])
    ensures Count(xs, p) == 0 <==> forall k :: 0 <= k < |xs| ==> !p(xs[k])
  {
    if xs != [] {
      var front := xs[..|xs| - 1];
      CountExtremes(front, p);
      assert forall k :: 0 <= k < |front| ==> front[k] == xs[k];
      assert xs == front + [xs[|xs| - 1]];
    }
  }

  /** What every step of every lane keeps. */
  ghost predicate Inv<I, O>(job: Job<I, O>, s: State<I, O>) {
    && |s.lanes| == LaneCount(job)
    && |s.results| == |job.inputs|
    && |s.calls| <= |job.inputs|
    && s.nextIndex == |s.calls| + Exited(s)
    && (Exited(s) > 0 ==> |s.calls| == |job.inputs|)
    && (forall i :: 0 <= i < |s.calls| ==>
      s.calls[i].index == i && s.calls[i].input == job.inputs[i] && s.calls[i].lane < |s.lanes|)
    && (forall l :: 0 <= l < |s.lanes| && s.lanes[l].Busy? ==>
          s.lanes[l].index < |s.calls| && s.calls[s.lanes[l].index].lane == l && s.results[s.lanes[l].index].None?)
    && (forall i :: 0 <= i < |s.calls| ==>
      s.results[i] == Some(job.worker(i, job.inputs[i])) || s.lanes[s.calls[i].lane] == Busy(i))
    && (forall i :: |s.calls| <= i < |s.results| ==> s.results[i].None?)
    && |s.calls| == Stored(s) + InFlight(s)
  }

  /** Slots whose call has been made and whose answer is not there yet. */
  function Unanswered<I, O>(s: State<I, O>): set<nat> {
    set i | 0 <= i < |s.calls| && i < |s.results| && s.results[i].None?
  }

  function Where<T>(xs: seq<T>, p: T -> bool): set<nat> {
    set i | 0 <= i < |xs| && p(xs[i])
  }

  lemma {:induction false} CountIsSize<T>(xs: seq<T>, p: T -> bool)
    ensures Count(xs, p) == |Where(xs, p)|
  {
    if xs == [] {
      assert Where(xs, p) == {};
    } else {
      var n := |xs| - 1;
      CountIsSize(xs[..n], p);
      assert Where(xs, p) == Where(xs[..n], p) + if p(xs[n]) then {n} else {};
    }
  }

  predicate IsAny<T>(x: T) { true }

  lemma AllPositions<T>(xs: seq<T>)
    ensures |Where(xs, IsAny)| == |xs|
  {
    CountIsSize(xs, IsAny);
    CountExtremes(xs, IsAny);
  }

  /** As many calls are unanswered as there are lanes waiting. */
  lemma UnansweredAreInFlight<I, O>(job: Job<I, O>, s: State<I, O>)
    requires Inv(job, s)
    ensures |Unanswered(s)| == InFlight(s)
  {
    CountIsSize(s.results, IsFilled);
    AllPositions(s.calls);
    FilledOrNot(s);
  }

  lemma FilledOrNot<I, O>(s: State<I, O>)
    requires |s.calls| <= |s.results| && forall i :: |s.calls| <= i < |s.results| ==> s.results[i].None?
    ensures |Where(s.calls, IsAny)| == |Where(s.results, IsFilled)| + |Unanswered(s)|
  {
    var filled := Where(s.results, IsFilled);
    assert Where(s.calls, IsAny) == filled + Unanswered(s) && filled !! Unanswered(s);
  }

  lemma InitInv<I, O>(job: Job<I, O>)
    ensures Inv(job, Init(job))
  {
    var s := Init(job);
    CountExtremes(s.lanes, IsDone);
    CountExtremes(s.lanes, IsBusy);
    CountExtremes(s.results, IsFilled);
  }

  /** Steps left: two for every slot not yet claimed, one for every call in flight, one for every
      lane that has not returned. */
  function Remaining<I, O>(job: Job<I, O>, s: State<I, O>): int {
    2 * (|job.inputs| - |s.calls|) + InFlight(s) + (|s.lanes| - Exited(s))
  }

  lemma ClaimInv<I, O>(job: Job<I, O>, s: State<I, O>, l: nat)
    requires Inv(job, s) && Enabled(s, Claim(l))
    ensures Inv(job, Step(job, s, Claim(l)))
    ensures Remaining(job, Step(job, s, Claim(l))) == Remaining(job, s) - 1
  {
    ClaimCounts(job, s, l);
    CountExtremes(s.lanes, IsDone);
    if s.nextIndex < |job.inputs| {
      ClaimSlotInv(job, s, l);
    }
  }

  lemma ClaimSlotInv<I, O>(job: Job<I, O>, s: State<I, O>, l: nat)
    requires Inv(job, s) && Enabled(s, Claim(l)) && s.nextIndex < |job.inputs|
    ensures Inv(job, Step(job, s, Claim(l)))
  {
    ClaimCounts(job, s, l);
    var t, n := Step(job, s, Claim(l)), |s.calls|;
    assert t.lanes[l] == Busy(n) && t.calls[n].lane == l && s.results[n].None?;
    forall m | 0 <= m < |s.lanes| && m != l ensures t.lanes[m] == s.lanes[m] {
    }
    forall i | 0 <= i < n ensures t.calls[i] == s.calls[i] && s.calls[i].lane < |s.lanes| {
    }
  }

  lemma ClaimCounts<I, O>(job: Job<I, O>, s: State<I, O>, l: nat)
    requires |s.results| == |job.inputs| && Enabled(s, Claim(l))
    ensures var t := Step(job, s, Claim(l));
      && Exited(t) == Exited(s) + (if s.nextIndex >= |job.inputs| then 1 else 0)
      && InFlight(t) == InFlight(s) + (if s.nextIndex >= |job.inputs| then 0 else 1)
  {
    var t := Step(job, s, Claim(l));
    CountUpdate(s.lanes, IsBusy, l, t.lanes[l]);
    CountUpdate(s.lanes, IsDone, l, t.lanes[l]);
  }

  lemma CompleteInv<I, O>(job: Job<I, O>, s: State<I, O>, l: nat)
    requires Inv(job, s) && Enabled(s, Complete(l))
    ensures Inv(job, Step(job, s, Complete(l)))
    ensures Remaining(job, Step(job, s, Complete(l))) == Remaining(job, s) - 1
  {
    CompleteCounts(job, s, l);
    var t := Step(job, s, Complete(l));
    var i := s.lanes[l].index;
    forall m | 0 <= m < |s.lanes| && m != l ensures t.lanes[m] == s.lanes[m] {
    }
    forall j | 0 <= j < |s.results| && j != i ensures t.results[j] == s.results[j] {
    }
  }

  lemma CompleteCounts<I, O>(job: Job<I, O>, s: State<I, O>, l: nat)
    requires Inv(job, s) && Enabled(s, Complete(l))
    ensures var t := Step(job, s, Complete(l));
      Exited(t) == Exited(s) && InFlight(t) == InFlight(s) - 1 && Stored(t) == Stored(s) + 1
  {
    var t := Step(job, s, Complete(l));
    var i := s.lanes[l].index;
    CountUpdate(s.lanes, IsBusy, l, t.lanes[l]);
    CountUpdate(s.lanes, IsDone, l, t.lanes[l]);
    CountUpdate(s.results, IsFilled, i, t.results[i]);
  }

  lemma StepInv<I, O>(job: Job<I, O>, s: State<I, O>, e: Event)
    requires Inv(job, s) && Enabled(s, e)
    ensures Inv(job, Step(job, s, e))
    ensures Remaining(job, Step(job, s, e)) == Remaining(job, s) - 1
  {
    match e
    case Claim(l) => ClaimInv(job, s, l);
    case Complete(l) => CompleteInv(job, s, l);
  }

  lemma {:induction false} RunInv<I, O>(job: Job<I, O>, schedule: seq<Event>)
    requires Run(job, schedule).Some?
    ensures Inv(job, Run(job, schedule).value)
    ensures Remaining(job, Run(job, schedule).value) == 2 * |job.inputs| + LaneCount(job) - |schedule|
  {
    if schedule == [] {
      InitInv(job);
      CountExtremes(Init(job).lanes, IsDone);
      CountExtremes(Init(job).lanes, IsBusy);
    } else {
      var front := schedule[..|schedule| - 1];
      RunInv(job, front);
      StepInv(job, Run(job, front).value, schedule[|schedule| - 1]);
    }
  }

  /** Safety of every interleaving: slots are claimed once each, in order, on their own input; two
      lanes never work on the same slot; each call is either in flight or has its answer stored; and
      no more calls are unanswered at a time than the concurrency asks for, none if that is zero or
      less. */
  lemma EverySlotClaimedOnce<I, O>(job: Job<I, O>, schedule: seq<Event>)
    requires Run(job, schedule).Some?
    ensures var s := Run(job, schedule).value;
      && (forall i, j :: 0 <= i < j < |s.calls| ==> s.calls[i].index != s.calls[j].index)
      && (forall i :: 0 <= i < |s.calls| ==> s.calls[i].index == i < |job.inputs| && s.calls[i].input == job.inputs[i])
      && (forall l, m :: 0 <= l < m < |s.lanes| && s.lanes[l].Busy? && s.lanes[m].Busy? ==>
        s.lanes[l].index != s.lanes[m].index)
      && |Unanswered(s)| <= |job.inputs|
      && (if job.concurrency >= 1 then |Unanswered(s)| <= job.concurrency else s.calls == [])
      && |Unanswered(s)| == InFlight(s) == |s.calls| - Stored(s)
  {
    RunInv(job, schedule);
    UnansweredAreInFlight(job, Run(job, schedule).value);
    CountExtremes(Run(job, schedule).value.lanes, IsBusy);
    if job.concurrency <= 0 {
      NoLaneNoStep(job, schedule);
    }
  }

  /** The state after the first k lanes have made their first claims. */
  function FirstClaims<I, O>(job: Job<I, O>, k: nat): State<I, O>
    requires k <= |job.inputs|
  {
    State(k, seq(LaneCount(job), l requires 0 <= l < LaneCount(job) => if l < k then Busy(l) else Ready),
          seq(|job.inputs|, _ => None),
          seq(k, i requires 0 <= i < k => Call(i, i, job.inputs[i])))
  }

  lemma {:induction false} LanesFill<I, O>(job: Job<I, O>, k: nat) returns (schedule: seq<Event>)
    requires k <= LaneCount(job) && k <= |job.inputs|
    ensures Run(job, schedule) == Some(FirstClaims(job, k))
  {
    if k == 0 {
      schedule := [];
      assert Init(job).lanes == FirstClaims(job, 0).lanes && Init(job).calls == FirstClaims(job, 0).calls;
    } else {
      var before := LanesFill(job, k - 1);
      schedule := before + [Claim(k - 1)];
      assert schedule[..|schedule| - 1] == before;
      var s := Step(job, FirstClaims(job, k - 1), Claim(k - 1));
      assert s.lanes == FirstClaims(job, k).lanes && s.calls == FirstClaims(job, k).calls;
    }
  }

  /** And no less: some schedule has as many calls unanswered at once as the concurrency and the
      inputs allow. */
  lemma LimitIsReached<I, O>(job: Job<I, O>)
    requires job.concurrency >= 1
    ensures exists schedule ::
      Run(job, schedule).Some? && |Unanswered(Run(job, schedule).value)|
        == if job.concurrency <= |job.inputs| then job.concurrency else |job.inputs|
  {
    var s := FirstClaims(job, LaneCount(job));
    var schedule := LanesFill(job, LaneCount(job));
    AllPositions(s.calls);
    assert Unanswered(s) == Where(s.calls, IsAny);
  }

  /** No deadlock: as long as some lane has not returned, some event is enabled; and no schedule is
      longer than two steps for each input plus one for each lane. */
  lemma EveryScheduleTerminates<I, O>(job: Job<I, O>, schedule: seq<Event>)
    requires Run(job, schedule).Some?
    ensures |schedule| <= 2 * |job.inputs| + LaneCount(job)
    ensures Finished(Run(job, schedule).value) <==> forall e :: !Enabled(Run(job, schedule).value, e)
  {
    RunInv(job, schedule);
    var s := Run(job, schedule).value;
    CountExtremes(s.lanes, IsDone);
    if !Finished(s) {
      var l :| 0 <= l < |s.lanes| && !s.lanes[l].Done?;
      assert Enabled(s, if s.lanes[l].Ready? then Claim(l) else Complete(l));
    }
  }

  /** At the end of every interleaving with a positive concurrency, each slot holds the worker's answer
      for its own input, the shared counter has overshot by exactly one for each lane, of which there
      are as many as the concurrency says and no more than inputs, and the number of steps is the same
      whatever the order was. */
  lemma FinalResults<I, O>(job: Job<I, O>, schedule: seq<Event>)
    requires Run(job, schedule).Some? && Finished(Run(job, schedule).value)
    requires job.concurrency >= 1
    ensures var s := Run(job, schedule).value;
      var lanes := if job.concurrency <= |job.inputs| then job.concurrency else |job.inputs|;
      && s.results == seq(|job.inputs|, i requires 0 <= i < |job.inputs| => Some(job.worker(i, job.inputs[i])))
      && s.nextIndex == |job.inputs| + lanes
      && |s.calls| == |job.inputs|
      && |schedule| == 2 * |job.inputs| + lanes
  {
    RunInv(job, schedule);
    var s := Run(job, schedule).value;
    CountExtremes(s.lanes, IsDone);
    CountExtremes(s.lanes, IsBusy);
  }

  /** A finished run has filled every slot exactly when there was nothing to fill or the requested
      concurrency was at least one: with a concurrency of zero or less there is no lane, and the
      caller gets an array of holes at once. */
  lemma FilledIffSomeLane<I, O>(job: Job<I, O>, schedule: seq<Event>)
    requires Run(job, schedule).Some? && Finished(Run(job, schedule).value)
    ensures (forall i :: 0 <= i < |job.inputs| ==>
      i < |Run(job, schedule).value.results| && Run(job, schedule).value.results[i].Some?)
       <==> |job.inputs| == 0 || job.concurrency >= 1
  {
    RunInv(job, schedule);
    var s := Run(job, schedule).value;
    if job.concurrency >= 1 {
      FinalResults(job, schedule);
    } else {
      CountExtremes(s.lanes, IsBusy);
      CountExtremes(s.results, IsFilled);
      EveryScheduleTerminates(job, schedule);
      NoLaneNoStep(job, schedule);
    }
  }

  lemma {:induction false} NoLaneNoStep<I, O>(job: Job<I, O>, schedule: seq<Event>)
    requires Run(job, schedule).Some? && LaneCount(job) == 0
    ensures schedule == []
  {
    if schedule != [] {
      RunInv(job, schedule[..|schedule| - 1]);
    }
  }

  /** The mapper itself: shared mutable counter and result array. */
  class Pool<I, O> {
    const job: Job<I, O>
    const results: array<Option<O>>
    var nextIndex: nat
    var lanes: seq<Lane>
    ghost var calls: seq<Call<I>>
    ghost var schedule: seq<Event>

    ghost function View(): State<I, O>
      reads this, results
    {
      State(nextIndex, lanes, results[..], calls)
    }

    /** The object is in the state its own schedule leads to. */
    ghost predicate Valid()
      reads this, results
    {
      Run(job, schedule) == Some(View())
    }

    constructor (job: Job<I, O>)
      ensures Valid() && this.job == job && fresh(results)
      ensures View() == Init(job) && schedule == []
    {
      this.job := job;
      results := new Option<O>[|job.inputs|](_ => None);
      nextIndex := 0;
      lanes := seq(LaneCount(job), _ => Ready);
      calls := [];
      schedule := [];
      new;
      assert results[..] == Init(job).results;
    }

    /** One turn of a lane's loop up to the suspension on the worker. */
    method ClaimNext(l: nat)
      requires Valid() && Enabled(View(), Claim(l))
      modifies this
      ensures Valid() && schedule == old(schedule) + [Claim(l)]
      ensures View() == Step(job, old(View()), Claim(l))
    {
      var index := nextIndex;
      nextIndex := nextIndex + 1;
      if index >= |job.inputs| {
        lanes := lanes[l := Done];
      } else {
        lanes := lanes[l := Busy(index)];
        calls := calls + [Call(l, index, job.inputs[index])];
      }
      schedule := schedule + [Claim(l)];
      assert schedule[..|schedule| - 1] == old(schedule);
    }

    /** The worker's promise for lane l resolves and its value is stored. */
    method StoreAnswer(l: nat)
      requires Valid() && Enabled(View(), Complete(l))
      modifies this, results
      ensures Valid() && schedule == old(schedule) + [Complete(l)]
      ensures View() == Step(job, old(View()), Complete(l))
    {
      RunInv(job, schedule);
      var index := lanes[l].index;
      results[index] := Some(job.worker(index, job.inputs[index]));
      lanes := lanes[l := Ready];
      schedule := schedule + [Complete(l)];
      assert schedule[..|schedule| - 1] == old(schedule);
    }
  }

  lemma {:induction false} PrefixRuns<I, O>(job: Job<I, O>, schedule: seq<Event>, n: nat)
    requires Run(job, schedule).Some? && n <= |schedule|
    ensures Run(job, schedule[..n]).Some?
  {
    if n < |schedule| {
      assert schedule[..|schedule| - 1][..n] == schedule[..n];
      PrefixRuns(job, schedule[..|schedule| - 1], n);
    } else {
      assert schedule[..n] == schedule;
    }
  }

  /** Drives the lanes in an arbitrary order until all of them have returned.  The events have been
      those of a schedule, and at no time in it were more calls unanswered than asked for. */
  method MapWithConcurrency<I, O(0)>(inputs: seq<I>, concurrency: int, worker: (nat, I) -> O)
      returns (answers: seq<Option<O>>, ghost schedule: seq<Event>)
    ensures forall n :: 0 <= n <= |schedule| ==>
      var now := Run(Job(inputs, concurrency, worker), schedule[..n]);
      now.Some? && (concurrency >= 1 ==> |Unanswered(now.value)| <= concurrency)
    ensures |schedule| == if concurrency <= 0 then 0
      else 2 * |inputs| + if concurrency <= |inputs| then concurrency else |inputs|
    ensures concurrency >= 1 ==> answers == seq(|inputs|, i requires 0 <= i < |inputs| => Some(worker(i, inputs[i])))
    ensures concurrency <= 0 ==> answers == seq(|inputs|, _ => None)
  {
    var job := Job(inputs, concurrency, worker);
    var pool := new Pool(job);
    while exists l :: 0 <= l < |pool.lanes| && !pool.lanes[l].Done?
      invariant pool.Valid() && pool.job == job && fresh(pool) && fresh(pool.results)
      decreases 2 * |inputs| + LaneCount(job) - |pool.schedule|
    {
      RunInv(job, pool.schedule);
      EveryScheduleTerminates(job, pool.schedule);
      var l :| 0 <= l < |pool.lanes| && !pool.lanes[l].Done?;
      if pool.lanes[l].Ready? {
        pool.ClaimNext(l);
      } else {
        pool.StoreAnswer(l);
      }
      EveryScheduleTerminates(job, pool.schedule);
    }
    RunInv(job, pool.schedule);
    if concurrency >= 1 {
      FinalResults(job, pool.schedule);
    } else {
      NoLaneNoStep(job, pool.schedule);
    }
    answers, schedule := pool.results[..], pool.schedule;
    forall n | 0 <= n <= |schedule|
      ensures var now := Run(job, schedule[..n]);
        now.Some? && (concurrency >= 1 ==> |Unanswered(now.value)| <= concurrency)
    {
      PrefixRuns(job, schedule, n);
      EverySlotClaimedOnce(job, schedule[..n]);
    }
  }
}
