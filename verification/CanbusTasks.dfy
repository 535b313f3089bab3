/** The CAN scheduler's tasks: which are created, and what one run does. */
module CanbusTasks {
  import opened Wrappers

  datatype Message = Message(frameId: nat, interval: Option<nat>)

  // A channel as the configuration and the CAN service present it: whether there is a bus, and
  // the frames its DBC file describes, if it has one.
  datatype Channel = Channel(bus: nat, hasBus: bool, dbc: Option<set<nat>>, messages: seq<Message>)

  type Config = seq<Channel>

  // What a task is about, and its state in the work queue. A task can be queued again while a
  // run is in progress.
  datatype Job = Job(bus: nat, frameId: nat, interval: nat)
  datatype Task = Task(job: Job, pending: bool, running: bool)

  /** The conditions of a task: a bus, a DBC entry, and a send interval. */
  predicate Eligible(c: Channel, m: Message) {
    c.hasBus && c.dbc.Some? && m.frameId in c.dbc.value && m.interval.Some?
  }

  function JobOf(c: Channel, m: Message): Job
    requires Eligible(c, m)
  {
    Job(c.bus, m.frameId, m.interval.value)
  }

  function WantedOf(c: Channel, ms: seq<Message>): seq<Job> {
    if ms == [] then []
    else (if Eligible(c, ms[0]) then [JobOf(c, ms[0])] else []) + WantedOf(c, ms[1..])
  }

  /** The jobs of a configuration, in its order. */
  function Wanted(config: Config): seq<Job> {
    if config == [] then [] else WantedOf(config[0], config[0].messages) + Wanted(config[1..])
  }

  function Jobs(tasks: seq<Task>): (jobs: seq<Job>)
    ensures |jobs| == |tasks|
  {
    seq(|tasks|, k requires 0 <= k < |tasks| => tasks[k].job)
  }

  lemma JobsConcat(a: seq<Task>, b: seq<Task>)
    ensures Jobs(a + b) == Jobs(a) + Jobs(b)
  {
  }

  function Fresh(job: Job): Task { Task(job, false, false) }

  /** There is a job for a message exactly when it has a send interval, its channel a bus, and the
      channel's DBC file an entry for it; and no other job. */
  lemma {:induction false} WantedOfIff(c: Channel, ms: seq<Message>, job: Job)
    ensures job in WantedOf(c, ms)
            <==> exists m :: m in ms && c.hasBus && c.dbc.Some? && m.frameId in c.dbc.value
                             && m.interval.Some? && job == Job(c.bus, m.frameId, m.interval.value)
  {
    if ms != [] {
      WantedOfIff(c, ms[1..], job);
      if job in WantedOf(c, ms) && job !in WantedOf(c, ms[1..]) {
        assert ms[0] in ms;
      }
    }
  }

  lemma {:induction false} WantedIff(config: Config, job: Job)
    ensures job in Wanted(config)
            <==> exists c, m :: c in config && m in c.messages && c.hasBus && c.dbc.Some?
                                && m.frameId in c.dbc.value && m.interval.Some?
                                && job == Job(c.bus, m.frameId, m.interval.value)
  {
    if config != [] {
      WantedIff(config[1..], job);
      WantedOfIff(config[0], config[0].messages, job);
      if job in WantedOf(config[0], config[0].messages) {
        assert config[0] in config;
      }
    }
  }

  /** The jobs stand in the order of the channels, and in a channel in that of its messages. */
  lemma {:induction false} WantedInOrder(a: Config, b: Config)
    ensures Wanted(a + b) == Wanted(a) + Wanted(b)
  {
    if a == [] {
      assert a + b == b;
    } else {
      assert (a + b)[1..] == a[1..] + b;
      WantedInOrder(a[1..], b);
    }
  }

  lemma {:induction false} WantedOfInOrder(c: Channel, a: seq<Message>, b: seq<Message>)
    ensures WantedOf(c, a + b) == WantedOf(c, a) + WantedOf(c, b)
    ensures |a| == 1 ==> |WantedOf(c, a)| <= 1
  {
    if a == [] {
      assert a + b == b;
    } else {
      assert (a + b)[1..] == a[1..] + b;
      WantedOfInOrder(c, a[1..], b);
    }
  }

  // ----- one run of a task

  type Bytes = seq<bv8>

  // What a frame processor makes of the frame; None when it throws.
  type Processor = Bytes -> Option<Bytes>

  /** The frame after the processors; None when one of them throws. A processor that returns
      nothing leaves the frame as it is. */
  function Processed(frame: Bytes, ps: seq<Processor>): Option<Bytes>
    decreases |ps|
  {
    if ps == [] then Some(frame)
    else match ps[0](frame)
      case None => None
      case Some(out) => Processed(if out != [] then out else frame, ps[1..])
  }

  /** A frame that is not empty is never lost to a processor, only to an exception. */
  lemma {:induction false} FrameSurvives(frame: Bytes, ps: seq<Processor>)
    requires frame != []
    ensures Processed(frame, ps) == None || Processed(frame, ps).value != []
    decreases |ps|
  {
    if ps != [] {
      match ps[0](frame)
      case None =>
      case Some(out) => FrameSurvives(if out != [] then out else frame, ps[1..]);
    }
  }

  // The same, told by the frames in between.

  /** A processor returns a new frame, or nothing and leaves the one it is handed. */
  predicate Follows(p: Processor, before: Bytes, after: Bytes) {
    var out := p(before);
    out.Some? && after == if out.value != [] then out.value else before
  }

  /** The frame before each processor and the last one: each processor is handed what the ones before
      it made of the frame. */
  predicate Handed(frame: Bytes, ps: seq<Processor>, frames: seq<Bytes>) {
    && |frames| == |ps| + 1 && frames[0] == frame
    && forall k | 0 <= k < |ps| :: Follows(ps[k], frames[k], frames[k + 1])
  }

  /** The `k`-th processor, handed what the ones before it made of the frame, throws. */
  predicate ThrowsAt(frame: Bytes, ps: seq<Processor>, k: nat, frames: seq<Bytes>) {
    k < |ps| && Handed(frame, ps[..k], frames) && ps[k](frames[k]).None?
  }

  lemma HandedMore(frame: Bytes, ps: seq<Processor>, frames: seq<Bytes>)
    requires ps != [] && ps[0](frame).Some?
    requires var out := ps[0](frame).value; Handed(if out != [] then out else frame, ps[1..], frames)
    ensures Handed(frame, ps, [frame] + frames)
  {
    var all := [frame] + frames;
    forall k | 0 <= k < |ps| ensures Follows(ps[k], all[k], all[k + 1]) {
      if k > 0 {
        assert Follows(ps[1..][k - 1], frames[k - 1], frames[k - 1 + 1]);
      }
    }
  }

  /** Either every processor is handed a frame and the last frame is the result, or one of them
      throws and there is none. */
  lemma {:induction false} ProcessedFrames(frame: Bytes, ps: seq<Processor>)
    returns (frames: seq<Bytes>, k: nat)
    ensures match Processed(frame, ps)
            case Some(out) => Handed(frame, ps, frames) && frames[|ps|] == out
            case None => ThrowsAt(frame, ps, k, frames)
    decreases |ps|
  {
    frames, k := [frame], 0;
    if ps != [] {
      match ps[0](frame)
      case None =>
      case Some(out) =>
        var next := if out != [] then out else frame;
        var rest;
        rest, k := ProcessedFrames(next, ps[1..]);
        frames := [frame] + rest;
        if Processed(next, ps[1..]).Some? {
          HandedMore(frame, ps, rest);
        } else {
          assert ps[..k + 1][1..] == ps[1..][..k] && ps[..k + 1][0] == ps[0];
          HandedMore(frame, ps[..k + 1], rest);
          k := k + 1;
        }
    }
  }

  /** The frames in between are determined. */
  lemma {:induction false} HandedOnce(frame: Bytes, ps: seq<Processor>, a: seq<Bytes>, b: seq<Bytes>, n: nat)
    requires n <= |ps| && Handed(frame, ps[..n], a) && Handed(frame, ps, b)
    ensures a == b[..n + 1]
  {
    if n > 0 {
      HandedFront(frame, ps, a, n);
      HandedOnce(frame, ps, a[..n], b, n - 1);
      assert Follows(ps[..n][n - 1], a[n - 1], a[n]) && Follows(ps[n - 1], b[n - 1], b[n]);
      assert a[n - 1] == a[..n][n - 1];
      assert a == a[..n] + [a[n]];
    }
  }

  lemma HandedFront(frame: Bytes, ps: seq<Processor>, a: seq<Bytes>, n: nat)
    requires 0 < n <= |ps| && Handed(frame, ps[..n], a)
    ensures Handed(frame, ps[..n - 1], a[..n])
  {
    forall k | 0 <= k < n - 1 ensures Follows(ps[..n - 1][k], a[..n][k], a[..n][k + 1]) {
      assert Follows(ps[..n][k], a[k], a[k + 1]);
    }
  }

  lemma HandedOn(frame: Bytes, ps: seq<Processor>, a: seq<Bytes>, b: seq<Bytes>, k: nat)
    requires Handed(frame, ps, a) && k < |ps| && Handed(frame, ps[..k], b)
    ensures ps[k](b[k]).Some?
  {
    HandedOnce(frame, ps, b, a, k);
    assert b[k] == a[..k + 1][k] == a[k];
    assert Follows(ps[k], a[k], a[k + 1]);
  }

  lemma HandedOrThrown(frame: Bytes, ps: seq<Processor>, a: seq<Bytes>, b: seq<Bytes>, k: nat)
    requires Handed(frame, ps, a)
    ensures !ThrowsAt(frame, ps, k, b)
  {
    if k < |ps| && Handed(frame, ps[..k], b) {
      HandedOn(frame, ps, a, b, k);
    }
  }

  /** What is sent, in terms of the processors alone. */
  ghost predicate Sends(busValid: bool, built: Option<Bytes>, ps: seq<Processor>, takes: Bytes -> bool, f: Bytes) {
    && busValid && built.Some? && f != [] && takes(f)
    && exists frames :: Handed(built.value, ps, frames) && frames[|ps|] == f
  }

  lemma ProcessedIff(frame: Bytes, ps: seq<Processor>, f: Bytes)
    ensures Processed(frame, ps) == Some(f) <==> exists frames :: Handed(frame, ps, frames) && frames[|ps|] == f
    ensures Processed(frame, ps) == None <==> exists k: nat, frames :: ThrowsAt(frame, ps, k, frames)
  {
    hide Handed, ThrowsAt;
    var frames, k := ProcessedFrames(frame, ps);
    if Processed(frame, ps).Some? {
      forall k': nat, b ensures !ThrowsAt(frame, ps, k', b) {
        HandedOrThrown(frame, ps, frames, b, k');
      }
      forall b | Handed(frame, ps, b) ensures b == frames {
        SameFrames(frame, ps, frames, b);
      }
    } else {
      forall b ensures !Handed(frame, ps, b) {
        if Handed(frame, ps, b) {
          HandedOrThrown(frame, ps, b, frames, k);
        }
      }
    }
  }

  lemma SameFrames(frame: Bytes, ps: seq<Processor>, a: seq<Bytes>, b: seq<Bytes>)
    requires Handed(frame, ps, a) && Handed(frame, ps, b)
    ensures a == b
  {
    assert ps[..|ps|] == ps;
    HandedOnce(frame, ps, a, b, |ps|);
    assert b[..|ps| + 1] == b;
  }

  /** Nothing is sent exactly when the bus is invalid, building fails, a processor throws, the last
      frame is empty, or the bus does not take it. */
  lemma NothingSentIff(busValid: bool, built: Option<Bytes>, ps: seq<Processor>, takes: Bytes -> bool)
    ensures (forall f :: !Sends(busValid, built, ps, takes, f))
            <==> || !busValid || built.None?
                 || (exists k: nat, frames :: ThrowsAt(built.value, ps, k, frames))
                 || exists frames :: Handed(built.value, ps, frames) && (frames[|ps|] == [] || !takes(frames[|ps|]))
  {
    hide Handed, ThrowsAt;
    if busValid && built.Some? {
      var frames, k := ProcessedFrames(built.value, ps);
      match Processed(built.value, ps)
      case None =>
        forall f ensures !Sends(busValid, built, ps, takes, f) {
          ProcessedIff(built.value, ps, f);
        }
      case Some(out) =>
        ProcessedIff(built.value, ps, out);
        forall b | Handed(built.value, ps, b) ensures b == frames {
          SameFrames(built.value, ps, frames, b);
        }
        LastFrame(built.value, ps, frames);
        if out != [] && takes(out) {
          assert Sends(busValid, built, ps, takes, out);
        }
    }
  }

  lemma LastFrame(frame: Bytes, ps: seq<Processor>, frames: seq<Bytes>)
    requires Handed(frame, ps, frames)
    ensures |frames| == |ps| + 1
  {
  }

  /** One run: it sends at most one frame, and asks to be run again unless the bus is gone. Building
      the frame may throw, as a processor may, and sending it, where the bus does not take it. */
  method ProcessCanbusWorkTask(busValid: bool, built: Option<Bytes>, processors: seq<Processor>,
      takes: Bytes -> bool)
    returns (sent: Option<Bytes>, reschedule: bool)
    ensures reschedule == busValid
    ensures var frame := if built.Some? then Processed(built.value, processors) else None;
            sent == if busValid && frame.Some? && frame.value != [] && takes(frame.value) then frame else None
    ensures forall f :: sent == Some(f) <==> Sends(busValid, built, processors, takes, f)
  {
    if built.Some? {
      forall f ensures Processed(built.value, processors) == Some(f)
                       <==> exists frames :: Handed(built.value, processors, frames) && frames[|processors|] == f
      {
        ProcessedIff(built.value, processors, f);
      }
    }
    if !busValid {
      return None, false;
    }
    if built.None? {
      return None, true;
    }
    var frame := built.value;
    for i := 0 to |processors|
      invariant Processed(frame, processors[i..]) == Processed(built.value, processors)
    {
      var out := processors[i](frame);
      if out.None? {
        return None, true;
      }
      if out.value != [] {
        frame := out.value;
      }
    }
    if |frame| > 0 {
      if !takes(frame) {
        return None, true;
      }
      sent := Some(frame);
    } else {
      sent := None;
    }
    reschedule := true;
  }
}
