/** The scheduler's calls interleaved with the work queue: a transition system over the steps of
    Start, Pause, Resume and Restart on one side, and of the queue's single thread on the other. */
module CanbusProtocol {
  import opened Wrappers
  import opened CanbusTasks

  // Where the calling thread stands: between calls; in the loop that creates tasks, with the jobs
  // still to come; in the loop that queues task after task; or in the loop that cancels them, to
  // be followed, in a restart, by clearing and a start.
  datatype Caller =
    | Idle
    | Creating(todo: seq<Job>)
    | Scheduling(i: nat)
    | Canceling(i: nat, restart: bool)

  // `started` holds, for the record, the configurations started since the tasks were last cleared.
  datatype State = State(tasks: seq<Task>, caller: Caller, started: seq<Config>)

  datatype Event =
    | CallStart(config: Config)
    | CallPause
    | CallResume
    | CallRestart
    | Create
    | Created
    | Schedule
    | Return
    | Cancel
    | Canceled(config: Config)
    | Fire(k: nat)
    | Send(k: nat)
    | Finish(k: nat, reschedule: bool)

  const INITIAL := State([], Idle, [])

  predicate NoneRunning(s: State) {
    forall k | 0 <= k < |s.tasks| :: !s.tasks[k].running
  }

  function Put(s: State, k: nat, t: Task, caller: Caller): State
    requires k < |s.tasks|
  {
    State(s.tasks[k := t], caller, s.started)
  }

  /** Canceling takes a task out of the queue; while its run is in progress it must be tried again,
      and what the run queues in the meantime canceled in turn. */
  function Cancelled(s: State): State
    requires s.caller.Canceling? && s.caller.i < |s.tasks|
  {
    var i := s.caller.i;
    Put(s, i, s.tasks[i].(pending := false),
        if s.tasks[i].running then s.caller else Canceling(i + 1, s.caller.restart))
  }

  /** One step of the caller or of the queue's thread. */
  predicate Next(s: State, e: Event, s': State) {
    match e
    case CallStart(c) =>
      s.caller == Idle && s' == State(s.tasks, Creating(Wanted(c)), s.started + [c])
    case CallPause => s.caller == Idle && s' == s.(caller := Canceling(0, false))
    case CallResume => s.caller == Idle && s' == s.(caller := Scheduling(0))
    case CallRestart => s.caller == Idle && s' == s.(caller := Canceling(0, true))
    case Create =>
      && s.caller.Creating? && s.caller.todo != []
      && s' == State(s.tasks + [Fresh(s.caller.todo[0])], Creating(s.caller.todo[1..]), s.started)
    case Created => s.caller == Creating([]) && s' == s.(caller := Scheduling(0))
    case Schedule =>
      && s.caller.Scheduling? && s.caller.i < |s.tasks|
      && s' == Put(s, s.caller.i, s.tasks[s.caller.i].(pending := true), Scheduling(s.caller.i + 1))
    case Return =>
      && (s.caller == Scheduling(|s.tasks|) || s.caller == Canceling(|s.tasks|, false))
      && s' == s.(caller := Idle)
    case Cancel =>
      s.caller.Canceling? && s.caller.i < |s.tasks| && s' == Cancelled(s)
    case Canceled(c) =>
      && s.caller == Canceling(|s.tasks|, true)
      && s' == State([], Creating(Wanted(c)), [c])
    case Fire(k) =>
      && k < |s.tasks| && s.tasks[k].pending && NoneRunning(s)
      && s' == Put(s, k, s.tasks[k].(pending := false, running := true), s.caller)
    case Send(k) => k < |s.tasks| && s.tasks[k].running && s' == s
    case Finish(k, reschedule) =>
      && k < |s.tasks| && s.tasks[k].running
      && s' == Put(s, k, Task(s.tasks[k].job, s.tasks[k].pending || reschedule, false), s.caller)
  }

  // ----- the invariant

  predicate Quiet(t: Task) { !t.pending && !t.running }

  /** The jobs of all the configurations, one after the other. */
  function WantedAll(cs: seq<Config>): seq<Job> {
    if cs == [] then [] else WantedAll(cs[..|cs| - 1]) + Wanted(cs[|cs| - 1])
  }

  ghost predicate Inv(s: State) {
    && (s.caller.Canceling? ==>
          s.caller.i <= |s.tasks| && forall k | 0 <= k < s.caller.i :: Quiet(s.tasks[k]))
    && (s.caller.Scheduling? ==> s.caller.i <= |s.tasks|)
    && (forall j, k | 0 <= j < |s.tasks| && 0 <= k < |s.tasks| :: s.tasks[j].running && s.tasks[k].running ==> j == k)
    && Jobs(s.tasks) + (if s.caller.Creating? then s.caller.todo else []) == WantedAll(s.started)
  }

  lemma StartedMore(cs: seq<Config>, c: Config)
    ensures WantedAll(cs + [c]) == WantedAll(cs) + Wanted(c)
  {
    assert (cs + [c])[..|cs|] == cs;
  }

  lemma InvInitial()
    ensures Inv(INITIAL)
  {
  }

  // One kind of step after the other.

  lemma CallKept(s: State, e: Event, s': State)
    requires Inv(s) && Next(s, e, s') && s.caller == Idle
    requires e.CallStart? || e.CallPause? || e.CallResume? || e.CallRestart?
    ensures Inv(s')
  {
    if e.CallStart? {
      StartedMore(s.started, e.config);
    }
  }

  lemma CreateKept(s: State, s': State)
    requires Inv(s) && Next(s, Create, s')
    ensures Inv(s')
  {
    var job, todo := s.caller.todo[0], s.caller.todo;
    JobsConcat(s.tasks, [Fresh(job)]);
    assert Jobs([Fresh(job)]) == [job];
    FirstMoved(Jobs(s.tasks), todo);
    hide Jobs, WantedAll;
  }

  lemma FirstMoved<T>(done: seq<T>, todo: seq<T>)
    requires todo != []
    ensures done + [todo[0]] + todo[1..] == done + todo
  {
    assert [todo[0]] + todo[1..] == todo;
  }

  lemma ClearKept(s: State, c: Config, s': State)
    requires Inv(s) && Next(s, Canceled(c), s')
    ensures Inv(s')
  {
    StartedMore([], c);
    assert [] + [c] == [c] && Jobs([]) == [];
  }

  /** A change of one task's state in the queue leaves the jobs alone. */
  lemma PutKept(s: State, k: nat, t: Task, caller: Caller)
    requires Inv(s) && k < |s.tasks| && t.job == s.tasks[k].job && !s.caller.Creating? && !caller.Creating?
    requires t.running && !s.tasks[k].running ==> NoneRunning(s)
    requires caller.Scheduling? ==> caller.i <= |s.tasks|
    requires caller.Canceling? ==>
               && (s.caller.Canceling? && s.caller.i <= caller.i <= |s.tasks|)
               && (k < caller.i ==> Quiet(t))
               && (caller.i <= s.caller.i || (k == s.caller.i && caller.i == k + 1))
    ensures Inv(Put(s, k, t, caller))
  {
    assert Jobs(s.tasks[k := t]) == Jobs(s.tasks);
  }

  lemma PutKeptCreating(s: State, k: nat, t: Task)
    requires Inv(s) && k < |s.tasks| && t.job == s.tasks[k].job && s.caller.Creating?
    requires t.running && !s.tasks[k].running ==> NoneRunning(s)
    ensures Inv(Put(s, k, t, s.caller))
  {
    assert Jobs(s.tasks[k := t]) == Jobs(s.tasks);
  }

  /** The queue never touches a task that has been canceled. */
  lemma QueueKept(s: State, k: nat, t: Task)
    requires Inv(s) && k < |s.tasks| && t.job == s.tasks[k].job && !Quiet(s.tasks[k])
    requires t.running && !s.tasks[k].running ==> NoneRunning(s)
    ensures Inv(Put(s, k, t, s.caller))
  {
    if s.caller.Creating? {
      PutKeptCreating(s, k, t);
    } else {
      PutKept(s, k, t, s.caller);
    }
  }

  /** Every step, the caller's or the queue's, keeps the invariant. */
  lemma InvKept(s: State, e: Event, s': State)
    requires Inv(s) && Next(s, e, s')
    ensures Inv(s')
  {
    match e
    case Create => CreateKept(s, s');
    case Canceled(c) => ClearKept(s, c, s');
    case Schedule => PutKept(s, s.caller.i, s.tasks[s.caller.i].(pending := true), Scheduling(s.caller.i + 1));
    case Cancel => PutKept(s, s.caller.i, s.tasks[s.caller.i].(pending := false), s'.caller);
    case Fire(k) => QueueKept(s, k, s.tasks[k].(pending := false, running := true));
    case Finish(k, again) => QueueKept(s, k, Task(s.tasks[k].job, s.tasks[k].pending || again, false));
    case Created => assert Jobs(s.tasks) + [] == Jobs(s.tasks);
    case Return =>
    case Send(_) =>
    case _ => CallKept(s, e, s');
  }

  // ----- runs

  ghost predicate Run(ss: seq<State>, es: seq<Event>) {
    && |ss| == |es| + 1 && ss[0] == INITIAL
    && forall k {:trigger es[k]} | 0 <= k < |es| :: Next(ss[k], es[k], ss[k + 1])
  }

  lemma {:induction false} RunInv(ss: seq<State>, es: seq<Event>, k: nat)
    requires Run(ss, es) && k < |ss|
    ensures Inv(ss[k])
  {
    hide Inv, Next;
    if k == 0 {
      InvInitial();
    } else {
      RunInv(ss, es, k - 1);
      InvKept(ss[k - 1], es[k - 1], ss[k]);
    }
  }

  predicate AllQuiet(s: State) {
    forall k | 0 <= k < |s.tasks| :: Quiet(s.tasks[k])
  }

  predicate StartingCall(e: Event) {
    e.CallStart? || e.CallResume? || e.CallRestart?
  }

  predicate QueueEvent(e: Event) {
    e.Fire? || e.Send? || e.Finish?
  }

  /** Nothing is queued or running, and the caller is not about to change that. */
  predicate Still(s: State) {
    AllQuiet(s) && (s.caller == Idle || (s.caller.Canceling? && !s.caller.restart))
  }

  lemma StillKept(s: State, e: Event, s': State)
    requires Still(s) && Next(s, e, s') && !StartingCall(e)
    ensures Still(s') && !QueueEvent(e)
  {
  }

  /** The end of Pause: the loop has canceled the last task. */
  predicate PauseReturns(s: State, e: Event) {
    e == Return && s.caller == Canceling(|s.tasks|, false)
  }

  /** Once Pause has returned, no task is queued or running and no frame is sent, whatever the
      queue was doing before, until Start, Resume or Restart is called. */
  lemma {:induction false} PausedUntilStarted(ss: seq<State>, es: seq<Event>, m: nat, n: nat)
    requires Run(ss, es) && m < n < |ss| && PauseReturns(ss[m], es[m])
    requires forall k | m < k < n :: !StartingCall(es[k])
    ensures Still(ss[n])
    ensures forall k | m < k < n :: !QueueEvent(es[k])
    decreases n
  {
    hide Inv, Still, StartingCall, QueueEvent;
    if n == m + 1 {
      RunInv(ss, es, m);
      PauseIsStill(ss[m], ss[n]);
    } else {
      PausedUntilStarted(ss, es, m, n - 1);
      StillKept(ss[n - 1], es[n - 1], ss[n]);
    }
  }

  lemma PauseIsStill(s: State, s': State)
    requires Inv(s) && PauseReturns(s, Return) && Next(s, Return, s')
    ensures Still(s')
  {
  }

  /** Restart clears the tasks only when none of them is queued or running. */
  lemma ClearedWhenQuiet(ss: seq<State>, es: seq<Event>, m: nat)
    requires Run(ss, es) && m < |es| && es[m].Canceled?
    ensures AllQuiet(ss[m])
  {
    RunInv(ss, es, m);
  }

  lemma {:induction false} StartedSince(ss: seq<State>, es: seq<Event>, m: nat, n: nat)
    requires Run(ss, es) && m <= n < |ss|
    requires forall k | m <= k < n :: !es[k].CallStart? && !es[k].Canceled?
    ensures ss[n].started == ss[m].started
    decreases n
  {
    if m < n {
      StartedSince(ss, es, m, n - 1);
      assert Next(ss[n - 1], es[n - 1], ss[n]);
    }
  }

  /** Between calls there is exactly one task for every job of every configuration started since
      the tasks were last cleared, in order. */
  lemma JobsBetweenCalls(ss: seq<State>, es: seq<Event>, n: nat)
    requires Run(ss, es) && n < |ss| && ss[n].caller == Idle
    ensures Jobs(ss[n].tasks) == WantedAll(ss[n].started)
  {
    RunInv(ss, es, n);
  }

  /** After a restart there is exactly one task for every eligible message of the configuration, in
      its order, however many starts went before. */
  lemma RestartedJobs(ss: seq<State>, es: seq<Event>, m: nat, n: nat, c: Config)
    requires Run(ss, es) && m < n < |ss| && es[m] == Canceled(c)
    requires forall k | m < k < n :: !es[k].CallStart? && !es[k].Canceled?
    requires ss[n].caller == Idle
    ensures Jobs(ss[n].tasks) == Wanted(c)
  {
    assert Next(ss[m], es[m], ss[m + 1]);
    StartedSince(ss, es, m + 1, n);
    JobsBetweenCalls(ss, es, n);
    StartedOne(c);
  }

  lemma StartedOne(c: Config)
    ensures WantedAll([c]) == Wanted(c)
  {
    StartedMore([], c);
    assert [] + [c] == [c];
  }

  /** How many of the events from `m` up to `n` begin a start, be it of its own or of a restart. */
  function Starts(es: seq<Event>, m: nat, n: nat): nat
    requires m <= n <= |es|
  {
    if m == n then 0 else Starts(es, m, n - 1) + if es[n - 1].CallStart? || es[n - 1].Canceled? then 1 else 0
  }

  /** The configurations started are those of these events, when all of them have the same. */
  lemma {:induction false} StartedAlike(ss: seq<State>, es: seq<Event>, m: nat, n: nat, c: Config)
    requires Run(ss, es) && m <= n < |ss| && (m == 0 || (m < n && es[m].Canceled?))
    requires forall k | m <= k < n :: (es[k].CallStart? ==> es[k].config == c)
                                      && (es[k].Canceled? ==> k == m && m > 0 && es[k].config == c)
    ensures |ss[n].started| == Starts(es, m, n)
    ensures forall i | 0 <= i < |ss[n].started| :: ss[n].started[i] == c
    decreases n
  {
    if m < n {
      var e := es[n - 1];
      assert Next(ss[n - 1], e, ss[n]);
      if n - 1 > m || m == 0 {
        StartedAlike(ss, es, m, n - 1, c);
      } else {
        assert Starts(es, m, m) == 0;
      }
    }
  }

  /** Over every run: `k` starts with one configuration since the tasks were last cleared, a
      restart's own among them, leave `k` tasks for every job between calls. */
  lemma StartsAddUp(ss: seq<State>, es: seq<Event>, m: nat, n: nat, c: Config, job: Job)
    requires Run(ss, es) && m <= n < |ss| && (m == 0 || (m < n && es[m].Canceled?))
    requires forall k | m <= k < n :: (es[k].CallStart? ==> es[k].config == c)
                                      && (es[k].Canceled? ==> k == m && m > 0 && es[k].config == c)
    requires ss[n].caller == Idle
    ensures multiset(Jobs(ss[n].tasks))[job] == Starts(es, m, n) * multiset(Wanted(c))[job]
  {
    hide Run, Jobs, Wanted, WantedAll, Starts;
    StartedAlike(ss, es, m, n, c);
    JobsBetweenCalls(ss, es, n);
    WantedTimes(ss[n].started, c, job);
  }

  lemma {:induction false} WantedTimes(cs: seq<Config>, c: Config, job: Job)
    requires forall k | 0 <= k < |cs| :: cs[k] == c
    ensures multiset(WantedAll(cs))[job] == |cs| * multiset(Wanted(c))[job]
  {
    hide Wanted;
    if cs != [] {
      var front, times := cs[..|cs| - 1], multiset(Wanted(c))[job];
      WantedTimes(front, c, job);
      assert multiset(WantedAll(front) + Wanted(c))[job] == multiset(WantedAll(front))[job] + times;
      OneMore(|front|, times);
    }
  }

  lemma OneMore(n: nat, times: nat)
    ensures n * times + times == (n + 1) * times
  {
  }

  lemma RunMore(ss: seq<State>, es: seq<Event>, e: Event, s': State)
    requires Run(ss, es) && Next(ss[|es|], e, s')
    ensures Run(ss + [s'], es + [e])
  {
    hide Next;
    var ss', es' := ss + [s'], es + [e];
    forall k {:trigger es'[k]} | 0 <= k < |es'| ensures Next(ss'[k], es'[k], ss'[k + 1]) {
      if k < |es| {
        assert es'[k] == es[k] && ss'[k] == ss[k] && ss'[k + 1] == ss[k + 1];
      }
    }
  }
}
