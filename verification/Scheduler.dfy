/**
  The `nextTick` queue of the bundle's `process` module: a scheduler whose tasks enqueue more tasks
  and may throw, run from timers. A state is what the module's variables and the host's pending timers
  hold between two steps; a drain in progress keeps its local variables in a frame.
*/
module Scheduler {
  import opened Options

  /** A queued call; only its identity matters here. */
  type Task = nat

  datatype Callback = DrainQueue | CleanUpNextTick

  /** The local variables of a running `drainQueue`: its clean-up timer and the length of its batch. */
  datatype Frame = Frame(cleanUp: nat, length: nat)

  datatype State = State(
    queue: seq<Task>,
    current: Option<seq<Task>>,
    draining: bool,
    index: int,
    timers: map<nat, Callback>,
    nextTimer: nat,
    frame: Option<Frame>)

  /** A state, and the tasks started on the way to it. */
  datatype Progress = Progress(state: State, started: seq<Task>)

  function Initial(): State {
    State([], None, false, -1, map[], 0, None)
  }

  // ---- The module's functions, between two task calls ----

  function SetTimer(s: State, callback: Callback): State {
    s.(timers := s.timers[s.nextTimer := callback], nextTimer := s.nextTimer + 1)
  }

  /** `nextTick`: only the first task of a queue that is not being drained needs a timer. */
  function Enqueue(s: State, task: Task): State {
    var pushed := s.(queue := s.queue + [task]);
    if |pushed.queue| != 1 || pushed.draining then pushed else SetTimer(pushed, DrainQueue)
  }

  /** `drainQueue` up to its first task. */
  function Drain(s: State): Progress {
    if s.draining then Progress(s, [])
    else
      var armed := SetTimer(s, CleanUpNextTick).(draining := true);
      NextBatch(armed.(frame := Some(Frame(s.nextTimer, |s.queue|))))
  }

  /** The outer loop from its head on: take the queue as a batch and start its next task, or leave. */
  function NextBatch(s: State): Progress
    requires s.frame.Some? && s.frame.value.length == |s.queue|
    decreases |s.queue|, 0
  {
    if s.frame.value.length == 0 then Progress(Leave(s), [])
    else AfterTask(s.(current := Some(s.queue), queue := []))
  }

  /** When the running task returns: the inner loop from its head on, and the outer loop when the batch is over. */
  function AfterTask(s: State): Progress
    requires s.frame.Some?
    decreases |s.queue|, 1
  {
    var next := NextTask(s);
    if next.started != [] || next.state.frame.None? then next
    else NextBatch(next.state.(index := -1, frame := Some(s.frame.value.(length := |s.queue|))))
  }

  /** The end of `drainQueue`: its clean-up timer is cancelled. */
  function Leave(s: State): State
    requires s.frame.Some?
  {
    s.(current := None, draining := false, timers := s.timers - {s.frame.value.cleanUp}, frame := None)
  }

  /** The inner loop's head: start the next task of the batch, if there is one. */
  function NextTask(s: State): Progress
    requires s.frame.Some?
  {
    var i := s.index + 1;
    if i < s.frame.value.length && s.current.Some? then
      if 0 <= i < |s.current.value| then Progress(s.(index := i), [s.current.value[i]])
      else Progress(s.(index := i, frame := None), [])  // no such task: calling it throws
    else Progress(s.(index := s.frame.value.length), [])
  }

  /** A throwing task unwinds `drainQueue`; everything else stays as it is. */
  function Throw(s: State): State {
    s.(frame := None)
  }

  function CleanUp(s: State): Progress {
    if !s.draining || s.current.None? then Progress(s, [])
    else
      var stopped := s.(draining := false);
      var joined := if |s.current.value| > 0 then stopped.(queue := s.current.value + s.queue) else stopped.(index := -1);
      if |joined.queue| > 0 then Drain(joined) else Progress(joined, [])
  }

  function Fire(s: State, timer: nat): Progress
    requires timer in s.timers
  {
    var rest := s.(timers := s.timers - {timer});
    if s.timers[timer].DrainQueue? then Drain(rest) else CleanUp(rest)
  }

  // ---- Runs ----

  /** What can happen next. A task is enqueued by anybody, a running task included. */
  datatype Event = Enqueued(task: Task) | TimerFired(timer: nat) | Returned | Threw

  /** A timer fires only when nothing runs; only a running task returns or throws. */
  predicate Possible(s: State, e: Event) {
    match e
    case Enqueued(_) => true
    case TimerFired(timer) => timer in s.timers && s.frame.None?
    case Returned => s.frame.Some?
    case Threw => s.frame.Some?
  }

  function Step(s: State, e: Event): Progress
    requires Possible(s, e)
  {
    match e
    case Enqueued(task) => Progress(Enqueue(s, task), [])
    case TimerFired(timer) => Fire(s, timer)
    case Returned => AfterTask(s)
    case Threw => Progress(Throw(s), [])
  }

  datatype World = World(state: State, enqueued: seq<Task>, started: seq<Task>)

  function Next(w: World, e: Event): World
    requires Possible(w.state, e)
  {
    var p := Step(w.state, e);
    World(p.state, if e.Enqueued? then w.enqueued + [e.task] else w.enqueued, w.started + p.started)
  }

  /** The world after the events in order, from `w`; `None` when one of them cannot happen then. */
  function Run(w: World, events: seq<Event>): Option<World>
    decreases |events|
  {
    if events == [] then Some(w)
    else if !Possible(w.state, events[0]) then None
    else Run(Next(w, events[0]), events[1..])
  }

  function Start(): World {
    World(Initial(), [], [])
  }

  // ---- Every run ----

  /** The tasks that have not started yet, in the order in which they will. */
  function Pending(s: State): seq<Task> {
    if s.draining && s.current.Some? && -1 <= s.index < |s.current.value|
    then s.current.value[s.index + 1..] + s.queue
    else s.queue
  }

  predicate Only(timers: map<nat, Callback>, timer: nat, callback: Callback) {
    timers == map[timer := callback]
  }

  /**
    Between two steps the scheduler is idle, or waits for its drain timer, or drains, or has been cut
    short by a task that threw. There is never more than one timer, and it is the right one.
  */
  ghost predicate Valid(s: State) {
    && (forall timer | timer in s.timers :: timer < s.nextTimer)
    && if s.draining then
         && s.current.Some? && 0 <= s.index < |s.current.value|
         && (exists timer :: Only(s.timers, timer, CleanUpNextTick))
         && (s.frame.Some? ==>
               && s.frame.value.length == |s.current.value|
               && s.timers == map[s.frame.value.cleanUp := CleanUpNextTick])
       else
         && s.frame.None? && s.current.None? && s.index == -1
         && (s.queue == [] ==> s.timers == map[])
         && (s.queue != [] ==> exists timer :: Only(s.timers, timer, DrainQueue))
  }

  ghost predicate Sound(w: World) {
    Valid(w.state) && w.enqueued == w.started + Pending(w.state)
  }

  lemma StepIsSound(s: State, e: Event)
    requires Valid(s) && Possible(s, e)
    ensures Valid(Step(s, e).state)
    ensures Step(s, e).started + Pending(Step(s, e).state) == Pending(s) + if e.Enqueued? then [e.task] else []
  {
    match e
    case Enqueued(task) => EnqueueIsSound(s, task);
    case TimerFired(timer) => FireIsSound(s, timer);
    case Returned => AfterTaskIsSound(s);
    case Threw =>
  }

  lemma EnqueueIsSound(s: State, task: Task)
    requires Valid(s)
    ensures Valid(Enqueue(s, task)) && Pending(Enqueue(s, task)) == Pending(s) + [task]
  {
    if s.queue == [] && !s.draining {
      assert Only(Enqueue(s, task).timers, s.nextTimer, DrainQueue);
    }
  }

  /** Also from the start of a batch, before its first task. */
  lemma {:induction false} AfterTaskIsSound(s: State)
    requires s.draining && s.frame.Some? && s.current.Some? && -1 <= s.index < |s.current.value|
    requires forall timer | timer in s.timers :: timer < s.nextTimer
    requires s.frame.value.length == |s.current.value| && s.timers == map[s.frame.value.cleanUp := CleanUpNextTick]
    ensures var p, pending := AfterTask(s), Pending(s);
            && Valid(p.state) && p.started + Pending(p.state) == pending
            && (pending != [] ==> p.started == [pending[0]])
            && (pending == [] ==> p.started == [] && !p.state.draining)
            && (p.state.frame.Some? <==> pending != [])
    decreases |s.queue|
  {
    var next := NextTask(s);
    assert Only(s.timers, s.frame.value.cleanUp, CleanUpNextTick);
    if s.index + 1 < |s.current.value| {
      assert AfterTask(s) == next;
    } else {
      var over := next.state.(index := -1, frame := Some(s.frame.value.(length := |s.queue|)));
      assert AfterTask(s) == NextBatch(over);
      if s.queue == [] {
        assert NextBatch(over) == Progress(Leave(over), []);
        assert Leave(over).timers == map[];
      } else {
        var batch := over.(current := Some(s.queue), queue := []);
        AfterTaskIsSound(batch);
        assert Pending(batch) == Pending(s);
      }
    }
  }

  lemma FireIsSound(s: State, timer: nat)
    requires Valid(s) && s.frame.None? && timer in s.timers
    ensures Valid(Fire(s, timer).state) && Fire(s, timer).started + Pending(Fire(s, timer).state) == Pending(s)
    ensures Pending(s) != [] ==> Fire(s, timer).started == [Pending(s)[0]]
    ensures Pending(s) == [] ==> Fire(s, timer).started == [] && !Fire(s, timer).state.draining
    ensures Fire(s, timer).state.frame.Some? <==> Pending(s) != []
  {
    var rest := s.(timers := s.timers - {timer});
    assert rest.timers == map[] by {
      var only := OneTimer(s);
    }
    hide Valid, Drain;
    if s.draining {
      var joined := rest.(draining := false, queue := s.current.value + s.queue);
      assert Fire(s, timer) == Drain(joined);
      assert joined.queue[s.index + 1..] == Pending(s);
      DrainIsSound(joined);
    } else {
      assert rest.queue[0..] == rest.queue;
      DrainIsSound(rest);
    }
  }

  /** `drainQueue` goes on after `index`, which is -1, or the task that threw. */
  lemma DrainIsSound(s: State)
    requires s.timers == map[] && !s.draining && s.frame.None? && -1 <= s.index < |s.queue|
    requires s.index == -1 ==> s.queue != []
    ensures var p, pending := Drain(s), s.queue[s.index + 1..];
            && Valid(p.state) && p.started + Pending(p.state) == pending
            && (pending != [] ==> p.started == [pending[0]])
            && (pending == [] ==> p.started == [] && !p.state.draining)
            && (p.state.frame.Some? <==> pending != [])
  {
    var batch := FirstBatch(s);
    DrainTakesFirstBatch(s);
    assert Pending(batch) == s.queue[s.index + 1..];
    hide AfterTask, Drain, Valid, Pending, FirstBatch;
    AfterTaskIsSound(batch);
  }

  /** The state in which a drain that finds `s` enters its first batch. */
  function FirstBatch(s: State): State {
    SetTimer(s, CleanUpNextTick).(
      draining := true, frame := Some(Frame(s.nextTimer, |s.queue|)), current := Some(s.queue), queue := [])
  }

  lemma DrainTakesFirstBatch(s: State)
    requires s.timers == map[] && !s.draining && s.queue != []
    ensures var batch := FirstBatch(s);
            batch.timers == map[s.nextTimer := CleanUpNextTick] && Drain(s) == AfterTask(batch)
  {
    hide AfterTask;
  }

  lemma NextIsSound(w: World, e: Event)
    requires Sound(w) && Possible(w.state, e)
    ensures Sound(Next(w, e))
  {
    hide Step, Valid, Pending;
    StepIsSound(w.state, e);
    var p := Step(w.state, e);
    assert w.started + p.started + Pending(p.state) == w.started + (p.started + Pending(p.state));
  }

  lemma {:induction false} RunIsSound(w: World, events: seq<Event>)
    requires Sound(w) && Run(w, events).Some?
    ensures Sound(Run(w, events).value)
    decreases |events|
  {
    hide Next, Sound;
    if events != [] {
      NextIsSound(w, events[0]);
      RunIsSound(Next(w, events[0]), events[1..]);
    }
  }

  /** In every run, the started tasks are a prefix of the enqueued ones: each at most once, in order. */
  lemma StartedInOrder(events: seq<Event>)
    requires Run(Start(), events).Some?
    ensures var w := Run(Start(), events).value;
            w.started <= w.enqueued && Pending(w.state) == w.enqueued[|w.started|..]
  {
    RunIsSound(Start(), events);
  }

  /**
    No wakeup is lost: when nothing runs and tasks are left, the one pending timer is the drain's, or
    the clean-up's after a task threw, and whenever it fires the next task in order starts.
  */
  lemma NoLostWakeup(events: seq<Event>) returns (timer: nat)
    requires Run(Start(), events).Some?
    requires var w := Run(Start(), events).value; w.state.frame.None? && w.started != w.enqueued
    ensures var w := Run(Start(), events).value;
            && w.state.timers == map[timer := if w.state.draining then CleanUpNextTick else DrainQueue]
            && |w.started| < |w.enqueued|
            && Step(w.state, TimerFired(timer)).started == [w.enqueued[|w.started|]]
  {
    RunIsSound(Start(), events);
    var w := Run(Start(), events).value;
    assert w.enqueued == w.started + Pending(w.state);
    timer := OneTimer(w.state);
    FireIsSound(w.state, timer);
  }

  lemma OneTimer(s: State) returns (timer: nat)
    requires Valid(s) && (s.draining || s.queue != [])
    ensures s.timers == map[timer := if s.draining then CleanUpNextTick else DrainQueue]
  {
    if s.draining {
      timer :| Only(s.timers, timer, CleanUpNextTick);
    } else {
      timer :| Only(s.timers, timer, DrainQueue);
    }
  }

  /** A task that throws leaves the clean-up timer of its drain, and the drain resumes just after it. */
  lemma ThrowIsResumed(events: seq<Event>)
    requires Run(Start(), events + [Threw]).Some?
    ensures Run(Start(), events).Some?
    ensures var s := Run(Start(), events).value.state;
            && s.frame.Some? && s.frame.value.cleanUp in s.timers
            && Possible(Throw(s), TimerFired(s.frame.value.cleanUp))
            && var p := Step(Throw(s), TimerFired(s.frame.value.cleanUp));
               && p.started + Pending(p.state) == Pending(s)
               && (Pending(s) != [] ==> p.started == [Pending(s)[0]])
               && (Pending(s) == [] ==> p.state == Initial().(nextTimer := p.state.nextTimer))
  {
    assert Sound(Start());
    hide Step, Pending;
    RunSplits(Start(), events, [Threw]);
    RunIsSound(Start(), events);
    var w := Run(Start(), events).value;
    assert Run(w, [Threw]).Some?;
    ResumedAfterThrow(w.state);
  }

  lemma ResumedAfterThrow(s: State)
    requires Valid(s) && s.frame.Some?
    ensures s.frame.value.cleanUp in s.timers && Possible(Throw(s), TimerFired(s.frame.value.cleanUp))
    ensures var p := Step(Throw(s), TimerFired(s.frame.value.cleanUp));
            && p.started + Pending(p.state) == Pending(s)
            && (Pending(s) != [] ==> p.started == [Pending(s)[0]])
            && (Pending(s) == [] ==> p.state == Initial().(nextTimer := p.state.nextTimer))
  {
    var t, timer := Throw(s), s.frame.value.cleanUp;
    assert Valid(t) && Pending(t) == Pending(s) && timer in t.timers;
    var p := Fire(t, timer);
    assert Step(t, TimerFired(timer)) == p;
    hide Fire, Pending, Step, Throw;
    FireIsSound(t, timer);
    if Pending(s) == [] {
      IdleState(p.state);
    }
  }

  lemma IdleState(s: State)
    requires Valid(s) && !s.draining && Pending(s) == []
    ensures s == Initial().(nextTimer := s.nextTimer)
  {}

  lemma {:induction false} RunSplits(w: World, first: seq<Event>, second: seq<Event>)
    ensures Run(w, first + second) == if Run(w, first).None? then None else Run(Run(w, first).value, second)
    decreases |first|
  {
    if first == [] {
      assert first + second == second;
    } else {
      assert (first + second)[0] == first[0] && (first + second)[1..] == first[1..] + second;
      if Possible(w.state, first[0]) {
        RunSplits(Next(w, first[0]), first[1..], second);
      }
    }
  }

  /** How the tasks that ended did so, in order: `true` for a throw. */
  function Outcomes(events: seq<Event>): seq<bool>
    decreases |events|
  {
    if events == [] then []
    else (if events[0].Threw? then [true] else if events[0].Returned? then [false] else []) + Outcomes(events[1..])
  }

  /**
    Every task runs: if no more are enqueued, then whichever of them throw, letting the pending timer
    fire each time nothing runs starts all of them and leaves the scheduler idle.
  */
  lemma {:induction false} EveryTaskRuns(w: World, throws: seq<bool>) returns (events: seq<Event>, end: World)
    requires Sound(w) && |throws| == |Pending(w.state)| + if w.state.frame.Some? then 1 else 0
    ensures Run(w, events) == Some(end) && Outcomes(events) == throws
    ensures forall e | e in events :: !e.Enqueued?
    ensures end.started == end.enqueued == w.enqueued
    ensures end.state == Initial().(nextTimer := end.state.nextTimer)
    decreases 2 * |Pending(w.state)| + if w.state.frame.Some? then 1 else 0, w.state.draining
  {
    hide Sound, Valid, Step, Pending;
    if w.state.frame.None? && !w.state.draining && w.state.queue == [] {
      Idle(w);
      return [], w;
    }
    SoundIsValid(w);
    var event := NextEvent(w.state, throws);
    var rest := if w.state.frame.Some? then throws[1..] else throws;
    NextIsSound(w, event);
    var later: seq<Event>;
    later, end := EveryTaskRuns(Next(w, event), rest);
    events := [event] + later;
    OneMore(w, event, later);
    hide Run, Outcomes;
  }

  lemma OneMore(w: World, event: Event, later: seq<Event>)
    requires Possible(w.state, event)
    ensures Run(w, [event] + later) == Run(Next(w, event), later)
    ensures Outcomes([event] + later) ==
            (if event.Threw? then [true] else if event.Returned? then [false] else []) + Outcomes(later)
  {
    hide Next, Step;
    assert ([event] + later)[1..] == later;
  }

  lemma Idle(w: World)
    requires Sound(w) && !w.state.draining && w.state.queue == []
    ensures w.started == w.enqueued && w.state == Initial().(nextTimer := w.state.nextTimer)
    ensures Pending(w.state) == []
  {}

  lemma SoundIsValid(w: World)
    requires Sound(w)
    ensures Valid(w.state)
  {}

  lemma NextEvent(s: State, throws: seq<bool>) returns (event: Event)
    requires Valid(s) && (s.frame.Some? || s.draining || s.queue != [])
    requires |throws| == |Pending(s)| + if s.frame.Some? then 1 else 0
    ensures Possible(s, event) && !event.Enqueued?
    ensures s.frame.Some? ==> event == if throws[0] then Threw else Returned
    ensures s.frame.None? ==> event.TimerFired?
    ensures var after := Step(s, event).state;
            && |throws| == |Pending(after)| + (if after.frame.Some? then 1 else 0) + (if s.frame.Some? then 1 else 0)
            && (|Pending(after)| < |Pending(s)| ||
                (|Pending(after)| == |Pending(s)| &&
                 if s.frame.Some? then after.frame.None? else after.frame.None? && s.draining && !after.draining))
  {
    if s.frame.Some? {
      event := if throws[0] then Threw else Returned;
      AfterTaskIsSound(s);
    } else {
      var timer := OneTimer(s);
      event := TimerFired(timer);
      FireIsSound(s, timer);
    }
  }
}
