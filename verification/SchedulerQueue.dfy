/** The `nextTick` module itself, as an object whose methods change its variables in place. */
module SchedulerQueue {
  import opened Options
  import opened Scheduler

  /** What a task does while it runs: the tasks it enqueues, and whether it then throws. */
  datatype Behaviour = Behaviour(enqueues: seq<Task>, throws: bool)

  function EnqueueAll(s: State, tasks: seq<Task>): (r: State)
    ensures r.frame == s.frame
    decreases |tasks|
  {
    if tasks == [] then s else EnqueueAll(Enqueue(s, tasks[0]), tasks[1..])
  }

  /** The tasks that start behave as the script says, until it ends or nothing runs any more. */
  function Play(p: Progress, script: seq<Behaviour>): Progress
    decreases |script|, 0
  {
    if p.state.frame.None? || script == [] then p
    else
      var s := EnqueueAll(p.state, script[0].enqueues);
      if script[0].throws then Progress(Throw(s), p.started) else Resume(s, p.started, script[1..])
  }

  function Resume(s: State, started: seq<Task>, script: seq<Behaviour>): Progress
    requires s.frame.Some?
    decreases |script|, 1
  {
    var p := AfterTask(s);
    Play(Progress(p.state, started + p.started), script)
  }

  /** The outer loop's head, with the tasks started before it. */
  function AtBatch(s: State, started: seq<Task>, script: seq<Behaviour>): Progress
    requires s.frame.Some? && s.frame.value.length == |s.queue|
  {
    var p := NextBatch(s);
    Play(Progress(p.state, started + p.started), script)
  }

  /** The inner loop's head, `index` being counted up already. */
  function AtTask(s: State, started: seq<Task>, script: seq<Behaviour>): Progress
    requires s.frame.Some?
  {
    Resume(s.(index := s.index - 1), started, script)
  }

  // ---- What one turn of each loop does ----

  lemma DrainBegins(s: State, script: seq<Behaviour>)
    requires !s.draining
    ensures var armed := SetTimer(s, CleanUpNextTick).(draining := true, frame := Some(Frame(s.nextTimer, |s.queue|)));
            Play(Scheduler.Drain(s), script) == AtBatch(armed, [], script)
  {
    assert [] + Scheduler.Drain(s).started == Scheduler.Drain(s).started;
  }

  lemma BatchBegins(s: State, started: seq<Task>, script: seq<Behaviour>)
    requires s.frame.Some? && s.frame.value.length == |s.queue| > 0
    ensures AtBatch(s, started, script) ==
            AtTask(s.(current := Some(s.queue), queue := [], index := s.index + 1), started, script)
  {
    var batch := s.(current := Some(s.queue), queue := []);
    assert batch.(index := batch.index + 1).(index := batch.index) == batch;
    assert NextBatch(s) == AfterTask(batch);
  }

  lemma DrainEnds(s: State, started: seq<Task>, script: seq<Behaviour>)
    requires s.frame.Some? && s.frame.value.length == |s.queue| == 0
    ensures AtBatch(s, started, script) == Progress(Leave(s), started)
  {
    assert NextBatch(s) == Progress(Leave(s), []) && started + [] == started;
  }

  lemma TaskStarts(s: State, started: seq<Task>, script: seq<Behaviour>)
    requires s.frame.Some? && s.current.Some? && 0 <= s.index < s.frame.value.length && s.index < |s.current.value|
    ensures AtTask(s, started, script) == Play(Progress(s, started + [s.current.value[s.index]]), script)
  {
    var before := s.(index := s.index - 1);
    assert AfterTask(before) == NextTask(before) == Progress(s, [s.current.value[s.index]]);
  }

  lemma NoSuchTask(s: State, started: seq<Task>, script: seq<Behaviour>)
    requires s.frame.Some? && s.current.Some? && s.index < s.frame.value.length
    requires !(0 <= s.index < |s.current.value|)
    ensures AtTask(s, started, script) == Progress(Throw(s), started)
  {
    var before := s.(index := s.index - 1);
    assert AfterTask(before) == NextTask(before) == Progress(Throw(s), []);
    var p := AfterTask(before);
    assert Progress(p.state, started + p.started) == Progress(Throw(s), started);
    assert Play(Progress(Throw(s), started), script) == Progress(Throw(s), started);
  }

  lemma ScriptEnds(s: State, started: seq<Task>, script: seq<Behaviour>)
    requires |script| == 0
    ensures Play(Progress(s, started), script) == Progress(s, started)
  {}

  /** The running task behaves as the script says, and the loop counts on. */
  lemma TaskEnds(s: State, started: seq<Task>, script: seq<Behaviour>)
    requires s.frame.Some? && script != []
    ensures var u := EnqueueAll(s, script[0].enqueues);
            Play(Progress(s, started), script) ==
            if script[0].throws then Progress(Throw(u), started)
            else AtTask(u.(index := u.index + 1), started, script[1..])
  {
    hide AfterTask;
    var u := EnqueueAll(s, script[0].enqueues);
    assert u.(index := u.index + 1).(index := u.index) == u;
  }

  lemma NothingToRun(s: State, started: seq<Task>, script: seq<Behaviour>)
    requires s.frame.Some? && s.current.None? && s.index < s.frame.value.length
    ensures AtTask(s, started, script) == AtTask(s.(index := s.index + 1), started, script)
  {
    var before := s.(index := s.index - 1);
    assert NextTask(before) == NextTask(s);
    assert s.(index := s.index + 1).(index := s.index) == s;
    assert AfterTask(before) == AfterTask(s);
  }

  lemma BatchEnds(s: State, started: seq<Task>, script: seq<Behaviour>)
    requires s.frame.Some? && s.index >= s.frame.value.length
    ensures var frame := Some(s.frame.value.(length := |s.queue|));
            AtTask(s, started, script) == AtBatch(s.(index := -1, frame := frame), started, script)
  {
    var before := s.(index := s.index - 1);
    var over := s.(index := -1, frame := Some(s.frame.value.(length := |s.queue|)));
    assert AfterTask(before) == NextBatch(over);
  }

  /** The events of a played script are a run, so what holds of every run holds of it. */
  lemma {:induction false} PlayIsRun(w: World, script: seq<Behaviour>) returns (events: seq<Event>)
    ensures Run(w, events).Some?
    ensures var end := Run(w, events).value; Play(Progress(w.state, w.started), script) == Progress(end.state, end.started)
    decreases |script|
  {
    events := [];
    if w.state.frame.Some? && script != [] {
      var enqueued := EnqueueAllIsRun(w, script[0].enqueues);
      var v := Run(w, enqueued).value;
      var e := if script[0].throws then Threw else Returned;
      var later: seq<Event> := [];
      if !script[0].throws {
        later := PlayIsRun(Next(v, e), script[1..]);
      } else {
        assert v.started + [] == v.started;
      }
      events := enqueued + ([e] + later);
      RunSplits(w, enqueued, [e] + later);
      assert ([e] + later)[1..] == later;
    }
  }

  lemma {:induction false} EnqueueAllIsRun(w: World, tasks: seq<Task>) returns (events: seq<Event>)
    ensures Run(w, events) == Some(World(EnqueueAll(w.state, tasks), w.enqueued + tasks, w.started))
    ensures EnqueueAll(w.state, tasks).frame == w.state.frame
    decreases |tasks|
  {
    if tasks == [] {
      events := [];
      assert w.enqueued + tasks == w.enqueued;
    } else {
      var e := Enqueued(tasks[0]);
      var v := Next(w, e);
      assert v.started == w.started && v.enqueued + tasks[1..] == w.enqueued + tasks;
      var later := EnqueueAllIsRun(v, tasks[1..]);
      events := [e] + later;
      assert events[1..] == later;
    }
  }

  class Queue {
    var queue: seq<Task>
    var current: Option<seq<Task>>
    var draining: bool
    var index: int
    var timers: map<nat, Callback>
    var nextTimer: nat

    constructor ()
      ensures View(None) == Initial()
    {
      queue, current, draining, index, timers, nextTimer := [], None, false, -1, map[], 0;
    }

    function View(frame: Option<Frame>): State
      reads this
    {
      State(queue, current, draining, index, timers, nextTimer, frame)
    }

    method SetTimeout(callback: Callback) returns (timer: nat)
      modifies `timers, `nextTimer
      ensures timer == old(nextTimer)
      ensures View(None) == SetTimer(old(View(None)), callback)
    {
      timer := nextTimer;
      timers := timers[timer := callback];
      nextTimer := nextTimer + 1;
    }

    method NextTick(task: Task)
      modifies `queue, `timers, `nextTimer
      ensures View(None) == Enqueue(old(View(None)), task)
    {
      queue := queue + [task];
      if |queue| == 1 && !draining {
        var timer := SetTimeout(DrainQueue);
      }
    }

    /** The running task enqueues others. */
    method NextTicks(tasks: seq<Task>, ghost frame: Option<Frame>)
      modifies `queue, `timers, `nextTimer
      ensures View(frame) == EnqueueAll(old(View(frame)), tasks)
    {
      var k := 0;
      while k < |tasks|
        invariant 0 <= k <= |tasks|
        invariant EnqueueAll(View(frame), tasks[k..]) == EnqueueAll(old(View(frame)), tasks)
      {
        ghost var before := View(None);
        NextTick(tasks[k]);
        assert View(frame) == Enqueue(before.(frame := frame), tasks[k]);
        assert tasks[k..][1..] == tasks[k + 1..];
        k := k + 1;
      }
    }

    /** The inner loop of `drainQueue`; `over` when it ends because the batch does. */
    method RunBatch(e: nat, t: nat, before: seq<Task>, script: seq<Behaviour>)
      returns (started: seq<Task>, n: nat, frame: Option<Frame>, over: bool)
      modifies this
      ensures over ==> n <= |script| && index >= t && (n == 0 ==> queue == old(queue)) && frame == Some(Frame(e, t))
      ensures AtTask(old(View(Some(Frame(e, t)))), before, script) ==
              if over then AtTask(View(frame), started, script[n..]) else Progress(View(frame), started)
    {
      hide Play, AtTask, EnqueueAll;
      started, n, frame := before, 0, Some(Frame(e, t));
      assert script[0..] == script;
      while index < t
        invariant n <= |script| && (n == 0 ==> queue == old(queue))
        invariant AtTask(old(View(frame)), before, script) == AtTask(View(frame), started, script[n..])
      {
        if current.Some? {
          if !(0 <= index < |current.value|) {
            NoSuchTask(View(frame), started, script[n..]);
            return started, n, None, false;
          }
          TaskStarts(View(frame), started, script[n..]);
          started := started + [current.value[index]];
          if n == |script| {
            ScriptEnds(View(frame), started, script[n..]);
            return started, n, frame, false;
          }
          var b := script[n];
          assert script[n..][0] == b && script[n..][1..] == script[n + 1..];
          TaskEnds(View(frame), started, script[n..]);
          n := n + 1;
          NextTicks(b.enqueues, frame);
          if b.throws {
            return started, n, None, false;
          }
        } else {
          NothingToRun(View(frame), started, script[n..]);
        }
        index := index + 1;
      }
      over := true;
    }

    /**
      The outer loop of `drainQueue`, whose tasks behave as the script says. It ends normally, or by a
      throw, or, with a frame, in the task that is running when the script ends.
    */
    method Drain(script: seq<Behaviour>) returns (started: seq<Task>, frame: Option<Frame>)
      modifies this
      ensures Progress(View(frame), started) == Play(Scheduler.Drain(old(View(None))), script)
    {
      started := [];
      if draining {
        return started, None;
      }
      hide Play, AtBatch, AtTask;
      DrainBegins(View(None), script);
      var e := SetTimeout(CleanUpNextTick);
      draining := true;
      var t: nat, left := |queue|, script;
      while t > 0
        invariant t == |queue|
        invariant Play(Scheduler.Drain(old(View(None))), script) == AtBatch(View(Some(Frame(e, t))), started, left)
        decreases |left|, t
      {
        BatchBegins(View(Some(Frame(e, t))), started, left);
        current := Some(queue);
        queue := [];
        index := index + 1;
        var n, over;
        started, n, frame, over := RunBatch(e, t, started, left);
        if !over {
          return;
        }
        left := left[n..];
        BatchEnds(View(frame), started, left);
        index := -1;
        t := |queue|;
      }
      DrainEnds(View(Some(Frame(e, t))), started, left);
      current := None;
      draining := false;
      timers := timers - {e};
      frame := None;
    }

    method CleanUp(script: seq<Behaviour>) returns (started: seq<Task>, frame: Option<Frame>)
      modifies this
      ensures Progress(View(frame), started) == Play(Scheduler.CleanUp(old(View(None))), script)
    {
      started, frame := [], None;
      if draining && current.Some? {
        draining := false;
        if |current.value| > 0 {
          queue := current.value + queue;
        } else {
          index := -1;
        }
        if |queue| > 0 {
          started, frame := Drain(script);
        }
      }
    }

    /** The host fires a pending timer. */
    method FireTimer(timer: nat, script: seq<Behaviour>) returns (started: seq<Task>, frame: Option<Frame>)
      requires timer in timers
      modifies this
      ensures Progress(View(frame), started) == Play(Fire(old(View(None)), timer), script)
    {
      var callback := timers[timer];
      timers := timers - {timer};
      if callback.DrainQueue? {
        started, frame := Drain(script);
      } else {
        started, frame := CleanUp(script);
      }
    }
  }
}
