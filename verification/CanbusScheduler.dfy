/** The CAN scheduler as it runs. What its methods do, step by step and whatever the work queue does
    in between, is proved to be a run of the protocol. */
module CanbusScheduler {
  import opened Wrappers
  import opened CanbusTasks
  import opened CanbusProtocol

  class CanbusSchedulerService {
    var workQueueTasks: seq<Task>

    // What the queue's thread does before the `n`-th step of the calling thread; whatever is not
    // possible at that moment is passed over.
    const queue: nat -> seq<Event>
    var clock: nat

    // Where the calling thread stands, the configurations it has started, and all that has
    // happened so far.
    ghost var caller: Caller
    ghost var started: seq<Config>
    ghost var states: seq<State>
    ghost var events: seq<Event>

    ghost function View(): State
      reads this
    {
      State(workQueueTasks, caller, started)
    }

    /** What has happened so far is a run of the protocol, and has led here. */
    ghost predicate Valid()
      reads this
    {
      Run(states, events) && states[|events|] == View()
    }

    /** The queue does nothing of its own. */
    ghost predicate Silent()
      reads this
    {
      forall n :: queue(n) == []
    }

    /** The tasks from the `n`-th on are neither queued nor running. */
    ghost predicate QuietFrom(n: nat)
      reads this
    {
      forall k | n <= k < |workQueueTasks| :: Quiet(workQueueTasks[k])
    }

    constructor (queue: nat -> seq<Event>)
      ensures Valid() && View() == INITIAL && this.queue == queue
    {
      this.queue := queue;
      workQueueTasks, clock, caller, started := [], 0, Idle, [];
      states, events := [INITIAL], [];
    }

    ghost method Record(e: Event)
      requires Run(states, events) && Next(states[|events|], e, View())
      modifies this`states, this`events
      ensures Valid() && events == old(events) + [e] && states == old(states) + [View()]
    {
      RunMore(states, events, e, View());
      states, events := states + [View()], events + [e];
    }

    /** What the queue's thread does before the caller's next step. */
    method Interleave()
      requires Valid()
      modifies this
      ensures Valid() && caller == old(caller) && started == old(started)
      ensures Jobs(workQueueTasks) == old(Jobs(workQueueTasks))
      ensures old(Silent()) ==> workQueueTasks == old(workQueueTasks)
    {
      var es := queue(clock);
      clock := clock + 1;
      for n := 0 to |es|
        invariant Valid() && caller == old(caller) && started == old(started)
        invariant Jobs(workQueueTasks) == old(Jobs(workQueueTasks))
        invariant n == 0 ==> workQueueTasks == old(workQueueTasks)
      {
        QueueStep(es[n]);
      }
    }

    method QueueStep(e: Event)
      requires Valid()
      modifies this
      ensures Valid() && caller == old(caller) && started == old(started)
      ensures Jobs(workQueueTasks) == old(Jobs(workQueueTasks))
    {
      match e
      case Fire(k) =>
        if k < |workQueueTasks| && workQueueTasks[k].pending
           && forall j | 0 <= j < |workQueueTasks| :: !workQueueTasks[j].running
        {
          workQueueTasks := workQueueTasks[k := workQueueTasks[k].(pending := false, running := true)];
          Record(e);
        }
      case Send(k) =>
        if k < |workQueueTasks| && workQueueTasks[k].running {
          Record(e);
        }
      case Finish(k, again) =>
        if k < |workQueueTasks| && workQueueTasks[k].running {
          var t := workQueueTasks[k];
          workQueueTasks := workQueueTasks[k := Task(t.job, t.pending || again, false)];
          Record(e);
        }
      case _ =>
    }

    /** A job for a message, or nothing for one that is not to be sent. */
    method CreateTask(c: Channel, m: Message) returns (r: Option<Job>)
      ensures r == if Eligible(c, m) then Some(JobOf(c, m)) else None
    {
      if !c.hasBus {
        return None;
      }
      if c.dbc.None? || m.frameId !in c.dbc.value {
        return None;
      }
      if m.interval.None? {
        return None;
      }
      return Some(Job(c.bus, m.frameId, m.interval.value));
    }

    /** Creates the tasks of one channel behind those there are. */
    method CreateChannelTasks(c: Channel, ghost rest: seq<Job>)
      requires Valid() && caller == Creating(WantedOf(c, c.messages) + rest)
      modifies this
      ensures Valid() && caller == Creating(rest) && started == old(started)
      ensures old(Silent()) ==> old(workQueueTasks) <= workQueueTasks
                                && QuietFrom(old(|workQueueTasks|))
    {
      assert c.messages[0..] == c.messages;
      for i := 0 to |c.messages|
        invariant Valid() && caller == Creating(WantedOf(c, c.messages[i..]) + rest) && started == old(started)
        invariant old(Silent()) ==> old(workQueueTasks) <= workQueueTasks
                                    && QuietFrom(old(|workQueueTasks|))
      {
        assert c.messages[i..][1..] == c.messages[i + 1..];
        var task := CreateTask(c, c.messages[i]);
        if task.Some? {
          Interleave();
          ghost var todo := WantedOf(c, c.messages[i + 1..]) + rest;
          assert caller.todo == [task.value] + todo;
          workQueueTasks := workQueueTasks + [Fresh(task.value)];
          caller := Creating(todo);
          Record(Create);
        } else {
          assert [] + WantedOf(c, c.messages[i + 1..]) == WantedOf(c, c.messages[i + 1..]);
        }
      }
      assert c.messages[|c.messages|..] == [] && [] + rest == rest;
    }

    method CreateTasks(config: Config)
      requires Valid() && caller == Creating(Wanted(config))
      modifies this
      ensures Valid() && caller == Creating([]) && started == old(started)
      ensures old(Silent()) ==> old(workQueueTasks) <= workQueueTasks
                                && QuietFrom(old(|workQueueTasks|))
    {
      assert config[0..] == config;
      for i := 0 to |config|
        invariant Valid() && caller == Creating(Wanted(config[i..])) && started == old(started)
        invariant old(Silent()) ==> old(workQueueTasks) <= workQueueTasks
                                    && QuietFrom(old(|workQueueTasks|))
      {
        assert config[i..][1..] == config[i + 1..];
        CreateChannelTasks(config[i], Wanted(config[i + 1..]));
      }
      assert config[|config|..] == [];
    }

    /** Every task is queued; a queue that does nothing of its own changes nothing else. */
    method StartTasks()
      requires Valid() && caller == Scheduling(0)
      modifies this
      ensures Valid() && caller == Idle && started == old(started)
      ensures Jobs(workQueueTasks) == old(Jobs(workQueueTasks))
      ensures old(Silent()) ==> forall k | 0 <= k < |workQueueTasks| ::
                workQueueTasks[k] == old(workQueueTasks)[k].(pending := true)
    {
      for i := 0 to |workQueueTasks|
        invariant Valid() && caller == Scheduling(i) && started == old(started)
        invariant Jobs(workQueueTasks) == old(Jobs(workQueueTasks))
        invariant old(Silent()) ==> forall k | 0 <= k < |workQueueTasks| ::
                    workQueueTasks[k]
                    == if k < i then old(workQueueTasks)[k].(pending := true) else old(workQueueTasks)[k]
      {
        Interleave();
        workQueueTasks := workQueueTasks[i := workQueueTasks[i].(pending := true)];
        caller := Scheduling(i + 1);
        Record(Schedule);
      }
      caller := Idle;
      Record(Return);
    }

    method Resume()
      requires Valid() && caller == Idle
      modifies this
      ensures Valid() && caller == Idle && started == old(started)
      ensures Jobs(workQueueTasks) == old(Jobs(workQueueTasks))
      ensures old(Silent()) ==> forall k | 0 <= k < |workQueueTasks| ::
                workQueueTasks[k] == old(workQueueTasks)[k].(pending := true)
    {
      caller := Scheduling(0);
      Record(CallResume);
      StartTasks();
    }

    /** Creates a task for every eligible message behind the tasks there are, and queues them all.
        The tasks of an earlier start are kept: a second start doubles them. */
    method Start(config: Config)
      requires Valid() && caller == Idle
      modifies this
      ensures Valid() && caller == Idle && started == old(started) + [config]
      ensures Jobs(workQueueTasks) == old(Jobs(workQueueTasks)) + Wanted(config)
      ensures old(Silent()) ==> forall k | 0 <= k < |workQueueTasks| ::
                && workQueueTasks[k].pending
                && workQueueTasks[k].running == (k < |old(workQueueTasks)| && old(workQueueTasks)[k].running)
    {
      JobsBetweenCalls(states, events, |events|);
      StartedMore(started, config);
      started, caller := started + [config], Creating(Wanted(config));
      Record(CallStart(config));
      CreateTasks(config);
      caller := Scheduling(0);
      Record(Created);
      StartTasks();
      JobsBetweenCalls(states, events, |events|);
    }

    /** Takes a task out of the queue; true while its run is still in progress. */
    method Cancel(i: nat) returns (busy: bool)
      requires Valid() && caller.Canceling? && caller.i == i < |workQueueTasks|
      modifies this
      ensures Valid() && started == old(started) && Jobs(workQueueTasks) == old(Jobs(workQueueTasks))
      ensures caller == if busy then old(caller) else Canceling(i + 1, old(caller).restart)
      ensures old(Silent() && NoneRunning(View())) ==> !busy && NoneRunning(View())
    {
      Interleave();
      busy := workQueueTasks[i].running;
      workQueueTasks := workQueueTasks[i := workQueueTasks[i].(pending := false)];
      caller := if busy then caller else Canceling(i + 1, caller.restart);
      Record(Event.Cancel);
    }

    /** Cancels every task, trying again while its run is in progress; gives up the wait, with the
        call still under way, after `patience` attempts. */
    method CancelTasks(patience: nat) returns (done: bool)
      requires Valid() && caller.Canceling? && caller.i == 0
      modifies this
      ensures Valid() && started == old(started) && Jobs(workQueueTasks) == old(Jobs(workQueueTasks))
      ensures caller.Canceling? && caller.restart == old(caller).restart
      ensures done ==> caller.i == |workQueueTasks| && AllQuiet(View())
      ensures old(Silent() && NoneRunning(View())) && patience >= |workQueueTasks| ==> done
    {
      var left: nat := patience;
      for i := 0 to |workQueueTasks|
        invariant Valid() && caller == Canceling(i, old(caller).restart) && started == old(started)
        invariant Jobs(workQueueTasks) == old(Jobs(workQueueTasks))
        invariant old(Silent() && NoneRunning(View())) ==>
                    NoneRunning(View()) && (patience >= |workQueueTasks| ==> left >= |workQueueTasks| - i)
      {
        var busy := true;
        while busy
          invariant Valid() && started == old(started) && Jobs(workQueueTasks) == old(Jobs(workQueueTasks))
          invariant caller == Canceling(if busy then i else i + 1, old(caller).restart)
          invariant old(Silent() && NoneRunning(View())) ==>
                      && NoneRunning(View())
                      && (patience >= |workQueueTasks| ==> left >= |workQueueTasks| - i - if busy then 0 else 1)
          decreases left, busy
        {
          if left == 0 {
            return false;
          }
          left := left - 1;
          busy := Cancel(i);
        }
      }
      RunInv(states, events, |events|);
      return true;
    }

    /** When it returns, nothing is queued or running, whatever the queue did in the meantime; the
        tasks stay. */
    method Pause(patience: nat) returns (done: bool)
      requires Valid() && caller == Idle
      modifies this
      ensures Valid() && started == old(started) && Jobs(workQueueTasks) == old(Jobs(workQueueTasks))
      ensures done ==> && caller == Idle && AllQuiet(View())
                       && |events| > 0 && PauseReturns(states[|events| - 1], events[|events| - 1])
      ensures old(Silent() && NoneRunning(View())) && patience >= |workQueueTasks| ==> done
    {
      caller := Canceling(0, false);
      Record(CallPause);
      done := CancelTasks(patience);
      if done {
        caller := Idle;
        Record(Return);
      }
    }

    /** When it returns, exactly the tasks of the configuration are there, whatever was started
        before and whatever the queue did in the meantime. */
    method Restart(config: Config, patience: nat) returns (done: bool)
      requires Valid() && caller == Idle
      modifies this
      ensures Valid()
      ensures done ==> caller == Idle && started == [config] && Jobs(workQueueTasks) == Wanted(config)
      ensures done && old(Silent()) ==> forall k | 0 <= k < |workQueueTasks| ::
                workQueueTasks[k].pending && !workQueueTasks[k].running
      ensures old(Silent() && NoneRunning(View())) && patience >= old(|workQueueTasks|) ==> done
    {
      hide AllQuiet, WantedAll;
      caller := Canceling(0, true);
      Record(CallRestart);
      done := CancelTasks(patience);
      if done {
        workQueueTasks, started, caller := [], [config], Creating(Wanted(config));
        Record(Canceled(config));
        CreateTasks(config);
        caller := Scheduling(0);
        Record(Created);
        StartTasks();
        JobsBetweenCalls(states, events, |events|);
        StartedOne(config);
      }
    }
  }
}
