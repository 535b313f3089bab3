/** The display's status line and animation, and the log writer that announces itself there. */
module DisplayLogging {
  import opened Wrappers

  const ANIMATIONS: int := 4

  // What can be told of a display: whether there is a frame buffer, whether it is initialised, the
  // statuses it shows, whether an animation runs, and the number of the animation last started.
  datatype Display = Display(hasCfb: bool, initialized: bool, statuses: set<string>, running: bool, index: int)

  // ----- what each call does

  function Started(d: Display, animation: int): Display {
    var k := if animation < 0 then d.index else animation;
    if d.initialized && 0 <= k < ANIMATIONS then d.(running := true, index := k) else d
  }

  function Stopped(d: Display): Display {
    if d.initialized then d.(running := false) else d
  }

  /** A change of the statuses: none left starts the animation, any left stops it. */
  function WithStatuses(d: Display, statuses: set<string>): Display {
    if !d.initialized then d
    else if statuses == {} then Started(d.(statuses := {}), -1)
    else d.(statuses := statuses, running := false)
  }

  function Initialized(d: Display): Display {
    if d.hasCfb && !d.initialized then Started(d.(initialized := true), 0) else d
  }

  class DisplayController {
    const hasCfb: bool
    var isInitialized: bool
    var statuses: set<string>
    var animation: Option<int>  // which animation object there is
    var isAnimationInProgress: bool
    var currentAnimationIndex: int
    var cfbAnimating: bool      // the frame buffer calls the animation handler

    ghost function View(): Display
      reads this
    {
      Display(hasCfb, isInitialized, statuses, isAnimationInProgress, currentAnimationIndex)
    }

    /** There is an animation object, and the frame buffer calls it, exactly while one is in
        progress; it is the one last started, and a valid one. */
    ghost predicate Valid()
      reads this
    {
      && (isInitialized ==> hasCfb)
      && 0 <= currentAnimationIndex < ANIMATIONS
      && cfbAnimating == isAnimationInProgress
      && animation == (if isAnimationInProgress then Some(currentAnimationIndex) else None)
    }

    constructor (hasCfb: bool)
      ensures Valid() && this.hasCfb == hasCfb && View() == Display(hasCfb, false, {}, false, 0)
    {
      this.hasCfb := hasCfb;
      isInitialized, statuses, animation := false, {}, None;
      isAnimationInProgress, currentAnimationIndex, cfbAnimating := false, 0, false;
    }

    method Initialize()
      requires Valid()
      modifies this
      ensures Valid() && View() == Initialized(old(View()))
    {
      if !hasCfb || isInitialized {
        return;
      }
      isInitialized := true;
      StartAnimation(0);
    }

    method StartAnimation(animationIndex: int)
      requires Valid()
      modifies this
      ensures Valid() && View() == Started(old(View()), animationIndex)
    {
      if !isInitialized {
        return;
      }
      var k := if animationIndex < 0 then currentAnimationIndex else animationIndex;
      if k >= ANIMATIONS {
        return;
      }
      animation := Some(k);
      cfbAnimating := true;
      isAnimationInProgress := true;
      currentAnimationIndex := k;
    }

    method StopAnimation()
      requires Valid()
      modifies this
      ensures Valid() && View() == Stopped(old(View()))
    {
      if !isInitialized || !isAnimationInProgress {
        return;
      }
      cfbAnimating := false;
      animation := None;
      isAnimationInProgress := false;
    }

    method PrintStringLine()
      requires Valid()
      modifies this
      ensures Valid() && View() == Stopped(old(View()))
    {
      if isInitialized {
        StopAnimation();
      }
    }

    method AddStatus(status: string)
      requires Valid()
      modifies this
      ensures Valid() && View() == WithStatuses(old(View()), old(statuses) + {status})
    {
      if !isInitialized {
        return;
      }
      statuses := statuses + {status};
      UpdateStatuses();
    }

    method RemoveStatus(status: string)
      requires Valid()
      modifies this
      ensures Valid() && View() == WithStatuses(old(View()), old(statuses) - {status})
    {
      if !isInitialized {
        return;
      }
      statuses := statuses - {status};
      UpdateStatuses();
    }

    method ClearStatuses()
      requires Valid()
      modifies this
      ensures Valid() && View() == WithStatuses(old(View()), {})
    {
      if !isInitialized {
        return;
      }
      statuses := {};
      UpdateStatuses();
    }

    method UpdateStatuses()
      requires Valid()
      modifies this
      ensures Valid() && View() == WithStatuses(old(View()), old(statuses))
    {
      if !isInitialized {
        return;
      }
      if statuses == {} {
        StartAnimation(-1);
        return;
      }
      StopAnimation();
    }
  }

  const LOG := "log"

  /** The log writer and the display it reports to. Starting and stopping the writer itself comes
      back with a result code; 0 means that it has changed state. */
  class LoggingController {
    var writerRunning: bool
    const display: DisplayController

    constructor (display: DisplayController)
      ensures this.display == display && !writerRunning
    {
      this.display := display;
      writerRunning := false;
    }

    ghost function View(): System
      reads this, display
    {
      System(writerRunning, display.View())
    }

    method LogWriterStart(result: int) returns (res: int)
      requires display.Valid()
      modifies this, display
      ensures display.Valid()
      ensures View() == Next(old(View()), Start(result))
      ensures res == if old(writerRunning) then 0 else result
    {
      if writerRunning {
        return 0;
      }
      res := result;
      if res == 0 {
        writerRunning := true;
        display.AddStatus(LOG);
      }
    }

    method LogWriterStop(result: int) returns (res: int)
      requires display.Valid()
      modifies this, display
      ensures display.Valid()
      ensures View() == Next(old(View()), Stop(result))
      ensures res == if old(writerRunning) then result else 0
    {
      if !writerRunning {
        return 0;
      }
      res := result;
      if res == 0 {
        writerRunning := false;
        display.RemoveStatus(LOG);
      }
    }
  }

  // ----- over any sequence of calls

  datatype System = System(writer: bool, display: Display)

  datatype Call =
    | Init
    | Start(result: int)
    | Stop(result: int)
    | Add(status: string)
    | Remove(status: string)
    | Clear
    | Animate(animation: int)
    | Halt
    | Print

  function Next(s: System, c: Call): System {
    var d := s.display;
    match c
    case Init => s.(display := Initialized(d))
    case Start(result) =>
      if s.writer || result != 0 then s else System(true, WithStatuses(d, d.statuses + {LOG}))
    case Stop(result) =>
      if !s.writer || result != 0 then s else System(false, WithStatuses(d, d.statuses - {LOG}))
    case Add(status) => s.(display := WithStatuses(d, d.statuses + {status}))
    case Remove(status) => s.(display := WithStatuses(d, d.statuses - {status}))
    case Clear => s.(display := WithStatuses(d, {}))
    case Animate(k) => s.(display := Started(d, k))
    case Halt => s.(display := Stopped(d))
    case Print => s.(display := Stopped(d))
  }

  function After(s: System, cs: seq<Call>): System {
    if cs == [] then s else Next(After(s, cs[..|cs| - 1]), cs[|cs| - 1])
  }

  predicate ValidDisplay(d: Display) { 0 <= d.index < ANIMATIONS }

  /** The animation that was last asked for by a valid number. */
  function LastValid(first: int, cs: seq<Call>): int {
    if cs == [] then first
    else match cs[|cs| - 1]
      case Animate(k) => if 0 <= k < ANIMATIONS then k else LastValid(first, cs[..|cs| - 1])
      case _ => LastValid(first, cs[..|cs| - 1])
  }

  lemma {:induction false} AfterIndex(s: System, cs: seq<Call>)
    requires s.display.initialized && ValidDisplay(s.display)
    ensures After(s, cs).display.initialized && ValidDisplay(After(s, cs).display)
    ensures After(s, cs).display.index == LastValid(s.display.index, cs)
  {
    if cs != [] {
      AfterIndex(s, cs[..|cs| - 1]);
    }
  }

  predicate StatusCall(s: System, c: Call) {
    || c.Add? || c.Remove? || c.Clear?
    || (c.Start? && !s.writer && c.result == 0)
    || (c.Stop? && s.writer && c.result == 0)
  }

  lemma StatusesRule(d: Display, statuses: set<string>)
    requires d.initialized && ValidDisplay(d)
    ensures var r := WithStatuses(d, statuses);
            r.statuses == statuses && (r.running <==> statuses == {}) && r.index == d.index
  {
  }

  lemma StatusCallRule(s: System, c: Call)
    requires s.display.initialized && ValidDisplay(s.display) && StatusCall(s, c)
    ensures var d := Next(s, c).display;
            (d.running <==> d.statuses == {}) && d.index == s.display.index
  {
    hide WithStatuses;
    var d := s.display;
    StatusesRule(d, {});
    StatusesRule(d, d.statuses + {LOG});
    StatusesRule(d, d.statuses - {LOG});
    match c
    case Add(status) => StatusesRule(d, d.statuses + {status});
    case Remove(status) => StatusesRule(d, d.statuses - {status});
    case _ =>
  }

  /** On an initialised display, after every call that touches the statuses an animation runs
      exactly when there is no status to show, and it is the one last validly asked for. */
  lemma AnimatedIffNoStatus(s: System, cs: seq<Call>, c: Call)
    requires s.display.initialized && ValidDisplay(s.display) && StatusCall(After(s, cs), c)
    ensures var d := After(s, cs + [c]).display;
            && (d.running <==> d.statuses == {})
            && d.index == LastValid(s.display.index, cs)
  {
    hide Next;
    AfterIndex(s, cs);
    StatusCallRule(After(s, cs), c);
    assert (cs + [c])[..|cs|] == cs;
  }

  /** A display with a frame buffer that is initialised for the first time runs animation 0, and
      remembers it; one that has no frame buffer, or is initialised already, stays as it is. */
  lemma InitializedOnce(s: System)
    ensures var d, r := s.display, Next(s, Init).display;
            if d.hasCfb && !d.initialized then
              r.initialized && r.running && r.index == 0 && r.statuses == d.statuses
            else r == d
  {
  }

  /** Halting and printing stop the animation and change nothing else; a valid number starts the one
      it names, a negative one the one last started, any other none. */
  lemma AnimationCalls(s: System, k: int)
    requires s.display.initialized && ValidDisplay(s.display)
    ensures Next(s, Halt).display == s.display.(running := false)
    ensures Next(s, Print).display == s.display.(running := false)
    ensures Next(s, Animate(k)).display
            == if k >= 4 then s.display
               else s.display.(running := true, index := if k < 0 then s.display.index else k)
  {
  }

  /** The calls that put a status on an initialised display. */
  predicate Puts(s: System, c: Call, status: string) {
    c == Add(status) || (status == "log" && c == Start(0) && !s.writer)
  }

  /** The calls that take it away. */
  predicate Takes(s: System, c: Call, status: string) {
    c == Remove(status) || c == Clear || (status == "log" && c == Stop(0) && s.writer)
  }

  /** Over every sequence of calls, a status is shown exactly when the last call that put it there or
      took it away put it there, or, without any such call, when it was shown to begin with. */
  ghost predicate PutLast(s: System, cs: seq<Call>, status: string) {
    if cs == [] then status in s.display.statuses
    else
      var front, c := cs[..|cs| - 1], cs[|cs| - 1];
      Puts(After(s, front), c, status)
      || (!Takes(After(s, front), c, status) && PutLast(s, front, status))
  }

  lemma {:induction false} StatusShownIff(s: System, cs: seq<Call>, status: string)
    requires s.display.initialized && ValidDisplay(s.display)
    ensures status in After(s, cs).display.statuses <==> PutLast(s, cs, status)
  {
    hide PutLast, Next;
    AfterIndex(s, cs);
    if cs == [] {
      PutNone(s, status);
    } else {
      var front := cs[..|cs| - 1];
      AfterIndex(s, front);
      StatusShownIff(s, front, status);
      OneCall(After(s, front), cs[|cs| - 1], status);
      PutMore(s, cs, status);
    }
  }

  lemma PutNone(s: System, status: string)
    ensures PutLast(s, [], status) == (status in s.display.statuses)
  {
  }

  lemma PutMore(s: System, cs: seq<Call>, status: string)
    requires cs != []
    ensures var front, c := cs[..|cs| - 1], cs[|cs| - 1];
            PutLast(s, cs, status)
            == (Puts(After(s, front), c, status)
                || (!Takes(After(s, front), c, status) && PutLast(s, front, status)))
  {
  }

  lemma OneCall(s: System, c: Call, status: string)
    requires s.display.initialized && ValidDisplay(s.display)
    ensures status in Next(s, c).display.statuses
            <==> Puts(s, c, status) || (!Takes(s, c, status) && status in s.display.statuses)
  {
  }

  /** "log" is shown exactly while the writer runs. */
  predicate Announced(s: System) {
    s.writer <==> LOG in s.display.statuses
  }

  /** The calls that break this: the writer changing state before the display is initialised, and
      anybody else taking "log" away or putting it there. */
  predicate Breaks(s: System, c: Call) {
    match c
    case Start(result) => !s.writer && result == 0 && !s.display.initialized
    case Stop(result) => s.writer && result == 0 && !s.display.initialized
    case Add(status) => s.display.initialized && status == LOG && !s.writer
    case Remove(status) => s.display.initialized && status == LOG && s.writer
    case Clear => s.display.initialized && s.writer
    case _ => false
  }

  lemma AnnouncedIff(s: System, c: Call)
    requires Announced(s)
    ensures Announced(Next(s, c)) <==> !Breaks(s, c)
  {
  }

  /** Over any run without such a call, "log" is shown exactly while the writer runs. */
  lemma {:induction false} LogShownIffRunning(s: System, cs: seq<Call>)
    requires Announced(s)
    requires forall n | 0 <= n < |cs| :: !Breaks(After(s, cs[..n]), cs[n])
    ensures Announced(After(s, cs))
  {
    if cs != [] {
      var front := cs[..|cs| - 1];
      forall n | 0 <= n < |front| ensures !Breaks(After(s, front[..n]), front[n]) {
        assert front[..n] == cs[..n];
      }
      LogShownIffRunning(s, front);
      AnnouncedIff(After(s, front), cs[|cs| - 1]);
    }
  }

  /** When the writer has started before the display is initialised, "log" stays hidden, after the
      initialisation too, until the writer stops or somebody else puts "log" there. */
  lemma {:induction false} StartedTooEarly(s: System, cs: seq<Call>)
    requires !s.writer && !s.display.initialized && LOG !in s.display.statuses
    requires forall n | 0 <= n < |cs| :: cs[n] != Add(LOG) && cs[n] != Stop(0)
    ensures After(Next(s, Start(0)), cs).writer && LOG !in After(Next(s, Start(0)), cs).display.statuses
  {
    if cs != [] {
      StartedTooEarly(s, cs[..|cs| - 1]);
    }
  }
}
