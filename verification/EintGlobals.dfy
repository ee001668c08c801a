/** The driver's interrupt globals as fields, and each atomic step of the C functions as a method that
    updates them in place. The object keeps the run it has gone through, so every theorem about runs
    holds for it in every state; the contracts say what those theorems mean for the step at hand. */
module EintGlobals {
  import opened Wire
  import opened Monitor
  import opened Eint

  class Line {
    // driver globals
    var flagIrq: bool
    var flagIrqTimeout: bool
    var isEintTimeout: int
    // kernel state of the interrupt line and of the two tasklets
    var depth: nat
    var data: Tasklet
    var timer: Tasklet
    // where the threads of control stand
    var top: TopPc
    var waiting: set<nat>
    ghost var cmd: Mon
    var timedWait: bool
    // how it came to this
    ghost var states: seq<State>
    ghost var events: seq<Event>

    ghost function Now(): State
      reads this
    {
      State(flagIrq, flagIrqTimeout, isEintTimeout, depth, top, data, timer, waiting, cmd, timedWait)
    }

    /** The fields are the last state of a run in which no probe-time enable met an interrupt. */
    ghost predicate Valid()
      reads this
    {
      && |states| == |events| + 1 && states[|events|] == Now()
      && IsRun(states, events) && CleanInit(states, events)
    }

    /** The history grows by one event. */
    twostate predicate Took(e: Event)
      reads this
    {
      events == old(events) + [e] && states == old(states) + [Now()]
    }

    constructor ()
      ensures Valid() && events == []
    {
      flagIrq, flagIrqTimeout, isEintTimeout, depth := false, false, 0, 0;
      data, timer, top := Tasklet(false, Off), Tasklet(false, Off), TopIdle;
      waiting, cmd, timedWait := {}, Idle(0), false;
      states, events := [START], [];
      EmptyRun();
    }

    /** What holds in every state of the object. */
    lemma Invariant()
      requires Valid()
      ensures Balanced(Now()) && CommandOk(Now())
      ensures cmd == Observe(Idle(0), CommandTrace(events))
    {
      BalancedUpTo(states, events, |events|);
      CommandOkUpTo(states, events, |events|);
      CommandIsObserved(states, events, |events|);
      assert events[..|events|] == events;
    }

    lemma Starts()
      requires Valid() && events == []
      ensures Now() == START && states == [START]
    {
    }

    /** Notes that the fields have just taken step e. */
    ghost method Record(e: Event)
      requires IsRun(states, events) && CleanInit(states, events) && |states| == |events| + 1
      requires Enabled(states[|events|], e) && Now() == Next(states[|events|], e)
      modifies this`states, this`events
      ensures |states| == |events| + 1 && states[|events|] == Now()
      ensures IsRun(states, events)
      ensures CleanInit(states, events) <==> (e.InitEnable? ==> Outstanding(old(states[|events|])) == 0)
      ensures Took(e)
    {
      hide Enabled, Next, IsRun, CleanInit, Outstanding;
      ExtendRun(states, events, e);
      states, events := states + [Now()], events + [e];
    }

    /** Kernel: enable_irq. */
    method EnableIrq()
      modifies this`depth
      ensures Now() == Enable(old(Now()))
    {
      if depth > 0 {
        depth := depth - 1;
      }
    }

    /** Kernel: tasklet_schedule, which does nothing for a tasklet already pending. */
    method TaskletSchedule(timeout: bool)
      modifies this`data, this`timer
      ensures Now() == WithTasklet(old(Now()), timeout, TaskletOf(old(Now()), timeout).(pending := true))
    {
      if timeout {
        timer := timer.(pending := true);
      } else {
        data := data.(pending := true);
      }
    }

    /** The extra `enable_irq` of a probe keeps everything exactly when no interrupt is in flight. */
    method EspInitInterruptEnable()
      requires Valid()
      modifies this`depth, this`states, this`events
      ensures Took(InitEnable)
      ensures Valid() <==> Outstanding(old(Now())) == 0
      ensures Valid() ==> Now() == old(Now())
    {
      hide IsRun, CleanInit, CommandOk;
      Invariant();
      EnableIrq();
      Record(InitEnable);
    }

    /** `request_interrupt` in its three steps. It runs only when no interrupt is in flight. */
    method RequestInterruptDisable()
      requires Valid() && Enabled(Now(), TopDisable)
      modifies this`depth, this`top, this`states, this`events
      ensures Valid() && Took(TopDisable)
      ensures Outstanding(old(Now())) == 0 && Outstanding(Now()) == 1 && depth == 1 && top == TopEntered
    {
      hide IsRun, CleanInit, CommandOk;
      Invariant();
      depth := depth + 1;
      top := TopEntered;
      Record(TopDisable);
    }

    /** The branch: to the timeout tasklet during every timed wait, to the data tasklet during every data
        read, and between sends by what the last one left. */
    method RequestInterruptChoose()
      requires Valid() && Enabled(Now(), TopRead)
      modifies this`top, this`states, this`events
      ensures Valid() && Took(TopRead)
      ensures top == TopChosen(isEintTimeout == 1)
      ensures timedWait ==> top.timeout
      ensures cmd.Reading? || cmd.Echo? ==> !top.timeout
      ensures cmd.Idle? ==> (top.timeout <==> cmd.sel == 1)
    {
      hide IsRun, CleanInit, Balanced;
      Invariant();
      if isEintTimeout == 1 {
        top := TopChosen(true);
      } else {
        top := TopChosen(false);
      }
      Record(TopRead);
    }

    /** The chosen tasklet becomes pending; it was idle, and so is the other one. */
    method RequestInterruptSchedule()
      requires Valid() && Enabled(Now(), TopSchedule)
      modifies this`data, this`timer, this`top, this`states, this`events
      ensures Valid() && Took(TopSchedule)
      ensures old(data) == old(timer) == Tasklet(false, Off)
      ensures TaskletOf(Now(), old(top.timeout)) == Tasklet(true, Off)
      ensures TaskletOf(Now(), !old(top.timeout)) == Tasklet(false, Off) && top == TopIdle
    {
      hide IsRun, CleanInit, CommandOk;
      Invariant();
      TaskletSchedule(top.timeout);
      top := TopIdle;
      Record(TopSchedule);
    }

    /** The softirq picks a tasklet up: pending is cleared before the function runs. */
    method TaskletAction(timeout: bool)
      requires Valid() && Enabled(Now(), TaskletStart(timeout))
      modifies this`data, this`timer, this`states, this`events
      ensures Valid() && Took(TaskletStart(timeout))
      ensures Now() == WithTasklet(old(Now()), timeout, Tasklet(false, Started))
    {
      hide IsRun, CleanInit;
      if timeout {
        timer := Tasklet(false, Started);
      } else {
        data := Tasklet(false, Started);
      }
      Record(TaskletStart(timeout));
    }

    /** `esp_spi_eint_handler` up to the wake-up: the latest top half read a selector other than 1. */
    method EspSpiEintHandlerFlag()
      requires Valid() && Enabled(Now(), TaskletFlag(false))
      modifies this`flagIrq, this`data, this`states, this`events
      ensures Valid() && Took(TaskletFlag(false))
      ensures flagIrq && data == old(data).(run := Flagged)
      ensures ChosenBy(states, events, false)
    {
      hide IsRun, CleanInit;
      flagIrq := true;
      data := data.(run := Flagged);
      Record(TaskletFlag(false));
      FlagWasChosen(states, events, false);
    }

    /** `esp_spi_eint_handler_timeout` up to the wake-up: the latest top half read a selector of 1. */
    method EspSpiEintHandlerTimeoutFlag()
      requires Valid() && Enabled(Now(), TaskletFlag(true))
      modifies this`flagIrqTimeout, this`timer, this`states, this`events
      ensures Valid() && Took(TaskletFlag(true))
      ensures flagIrqTimeout && timer == old(timer).(run := Flagged)
      ensures ChosenBy(states, events, true)
    {
      hide IsRun, CleanInit;
      flagIrqTimeout := true;
      timer := timer.(run := Flagged);
      Record(TaskletFlag(true));
      FlagWasChosen(states, events, true);
    }

    /** The `enable_irq` that ends either handler brings the line back, with nothing in flight. */
    method EspSpiEintHandlerEnable(timeout: bool)
      requires Valid() && Enabled(Now(), TaskletEnable(timeout))
      modifies this`data, this`timer, this`depth, this`states, this`events
      ensures Valid() && Took(TaskletEnable(timeout))
      ensures old(depth) == 1 && depth == 0 && Outstanding(Now()) == 0
      ensures data == timer == Tasklet(false, Off)
    {
      hide IsRun, CleanInit, CommandOk;
      Invariant();
      if timeout {
        timer := timer.(run := Off);
      } else {
        data := data.(run := Off);
      }
      EnableIrq();
      Record(TaskletEnable(timeout));
    }

    /** `request_interrupt` as a whole, if nothing interferes. */
    method RequestInterrupt() returns (timeout: bool)
      requires Valid() && Outstanding(Now()) == 0
      modifies this
      ensures Valid() && events == old(events) + [TopDisable, TopRead, TopSchedule]
      ensures timeout <==> old(isEintTimeout) == 1
      ensures Now() == WithTasklet(old(Now()), timeout, Tasklet(true, Off)).(depth := 1)
    {
      hide IsRun, CleanInit, CommandOk, Step;
      Invariant();
      RequestInterruptDisable();
      RequestInterruptChoose();
      timeout := top.timeout;
      RequestInterruptSchedule();
    }

    /** `esp_spi_eint_handler` as a whole, if nothing interferes. */
    method EspSpiEintHandler()
      requires Valid() && data.run.Started?
      modifies this`flagIrq, this`data, this`timer, this`depth, this`states, this`events
      ensures Valid() && events == old(events) + [TaskletFlag(false), TaskletEnable(false)]
      ensures flagIrq && depth == 0 && data == timer == Tasklet(false, Off)
    {
      hide IsRun, CleanInit, Step, ChosenBy, Balanced, Outstanding, Next;
      EspSpiEintHandlerFlag();
      EspSpiEintHandlerEnable(false);
    }

    /** `esp_spi_eint_handler_timeout` as a whole, if nothing interferes. */
    method EspSpiEintHandlerTimeout()
      requires Valid() && timer.run.Started?
      modifies this`flagIrqTimeout, this`data, this`timer, this`depth, this`states, this`events
      ensures Valid() && events == old(events) + [TaskletFlag(true), TaskletEnable(true)]
      ensures flagIrqTimeout && depth == 0 && data == timer == Tasklet(false, Off)
    {
      hide IsRun, CleanInit, Step, ChosenBy, Balanced, Outstanding, Next;
      EspSpiEintHandlerTimeoutFlag();
      EspSpiEintHandlerEnable(true);
    }

    /** One run of the pending tasklet as a whole, if nothing interferes. */
    method RunTasklet(timeout: bool)
      requires Valid() && TaskletOf(Now(), timeout) == Tasklet(true, Off)
      modifies this
      ensures Valid()
      ensures events == old(events) + [TaskletStart(timeout), TaskletFlag(timeout), TaskletEnable(timeout)]
      ensures Now() == Flag(WithTasklet(old(Now()), timeout, Tasklet(false, Off)).(depth := 0), timeout)
    {
      hide IsRun, CleanInit, CommandOk, Step, ChosenBy, Balanced, Outstanding, Next;
      Invariant();
      OtherIsIdle(Now(), timeout);
      TaskletAction(timeout);
      if timeout {
        EspSpiEintHandlerTimeout();
      } else {
        EspSpiEintHandler();
      }
    }

    /** One whole interrupt, if nothing interferes: the selected flag goes up and all else is as before. */
    method HandleInterrupt() returns (timeout: bool)
      requires Valid() && Outstanding(Now()) == 0
      modifies this
      ensures Valid() && events == old(events) + InterruptEvents(timeout)
      ensures timeout <==> old(isEintTimeout) == 1
      ensures Now() == Flag(old(Now()), timeout)
    {
      hide IsRun, CleanInit, CommandOk, Step;
      Invariant();
      timeout := RequestInterrupt();
      RunTasklet(timeout);
    }

    /** `esp_wait_spi_eint`: clear the flag, then wait. */
    method EspWaitSpiEintClear(w: nat)
      requires Valid() && Enabled(Now(), PollClear(w))
      modifies this`flagIrq, this`waiting, this`states, this`events
      ensures Valid() && Took(PollClear(w))
      ensures waiting == old(waiting) + {w} && !flagIrq
    {
      hide IsRun, CleanInit;
      flagIrq := false;
      waiting := waiting + {w};
      Record(PollClear(w));
    }

    /** One evaluation of the wait condition by poller w, with or without a pending signal. A return
        without a signal means that a data tasklet ran inside this very wait. */
    method EspWaitSpiEintCheck(w: nat, signal: bool) returns (done: bool)
      requires Valid() && w in waiting
      modifies this`waiting, this`states, this`events
      ensures Valid()
      ensures done ==> Took(if old(flagIrq) then PollReturn(w) else PollSignal(w))
      ensures !done ==> events == old(events) && Now() == old(Now())
      ensures done <==> old(flagIrq) || signal
      ensures done && !signal ==> WokenInside(old(events), w)
      ensures !done ==> !WokenSinceLastClear(events)
    {
      hide IsRun, CleanInit, WokenInside, WokenSinceLastClear;
      done := flagIrq || signal;
      NoFlagNoWakeUp(states, events);
      if done {
        ghost var e := if flagIrq then PollReturn(w) else PollSignal(w);
        waiting := waiting - {w};
        Record(e);
        if e.PollReturn? {
          ReturnWasWoken(states, events, w);
          assert events[..|events| - 1] == old(events);
        }
      }
    }

    /** The timed wait begins with the selector at 1: interrupts go to the timeout tasklet. */
    method EspWaitSpiEintTimeoutClear()
      requires Valid() && Enabled(Now(), WaitClear)
      modifies this`flagIrqTimeout, this`timedWait, this`states, this`events
      ensures Valid() && Took(WaitClear)
      ensures timedWait && !flagIrqTimeout && isEintTimeout == 1
    {
      hide IsRun, CleanInit, Balanced;
      flagIrqTimeout := false;
      timedWait := true;
      Record(WaitClear);
      Invariant();
    }

    /** One evaluation of the timed wait condition; `expired` and `signal` come from the kernel. An end
        without either means that a timeout tasklet ran after this wait's clear. */
    method EspWaitSpiEintTimeoutCheck(ticks: nat, expired: bool, signal: bool) returns (done: bool)
      requires Valid() && Enabled(Now(), WaitDone(ticks, TimedOut))
      modifies this`timedWait, this`cmd, this`states, this`events
      ensures Valid()
      ensures done <==> old(flagIrqTimeout) || expired || signal
      ensures done ==>
        var how := if old(flagIrqTimeout) then Awoken else if signal then Interrupted else TimedOut;
        Took(WaitDone(ticks, how)) && !timedWait && cmd == Step(old(cmd), Wait(ticks))
      ensures !done ==> events == old(events) && Now() == old(Now())
      ensures done && !expired && !signal ==> AnsweredInside(old(events))
    {
      hide IsRun, CleanInit, Step, AnsweredInside;
      done := flagIrqTimeout || expired || signal;
      if done {
        ghost var how := if flagIrqTimeout then Awoken else if signal then Interrupted else TimedOut;
        timedWait := false;
        cmd := Step(cmd, Wait(ticks));
        Record(WaitDone(ticks, how));
        if how.Awoken? {
          EndWasAnswered(states, events);
          assert events[..|events| - 1] == old(events);
        }
      }
    }

    /** An assignment to `is_eint_timeout` that `esp_spi_send` is due to make. */
    method AssignSelector(value: int)
      requires Valid() && Enabled(Now(), CmdOp(Select(value)))
      modifies this`isEintTimeout, this`cmd, this`states, this`events
      ensures Valid() && Took(CmdOp(Select(value)))
      ensures isEintTimeout == value && (value == 0 || value == 1) && cmd == Step(old(cmd), Select(value))
    {
      SelectValues(cmd, Select(value));
      hide IsRun, CleanInit, Step;
      isEintTimeout := value;
      cmd := Step(cmd, Select(value));
      Record(CmdOp(Select(value)));
    }

    /** A transfer of the command thread: a write or a read, which touches none of these globals. */
    method CommandTransfer(ghost op: Op)
      requires Valid() && Enabled(Now(), CmdOp(op)) && !op.Select?
      modifies this`cmd, this`states, this`events
      ensures Valid() && Took(CmdOp(op)) && cmd == Step(old(cmd), op)
    {
      hide IsRun, CleanInit, Step;
      cmd := Step(cmd, op);
      Record(CmdOp(op));
    }

    /** A signal that is noticed after the condition was found false ends the wait even if the flag has
        come up since. */
    method EspWaitSpiEintInterrupted(w: nat)
      requires Valid() && w in waiting
      modifies this`waiting, this`states, this`events
      ensures Valid() && Took(PollSignal(w)) && waiting == old(waiting) - {w}
    {
      hide IsRun, CleanInit;
      waiting := waiting - {w};
      Record(PollSignal(w));
    }

    /** The same for the timed wait, when a signal or the end of its time is noticed. */
    method EspWaitSpiEintTimeoutGivesUp(ticks: nat, how: WaitEnd)
      requires Valid() && !how.Awoken? && Enabled(Now(), WaitDone(ticks, how))
      modifies this`timedWait, this`cmd, this`states, this`events
      ensures Valid() && Took(WaitDone(ticks, how)) && !timedWait
    {
      hide IsRun, CleanInit, Step;
      timedWait := false;
      cmd := Step(cmd, Wait(ticks));
      Record(WaitDone(ticks, how));
    }

    /** Write, wait, read: one exchange of the command thread in which one interrupt is served after the
        wait has cleared its flag. It ends the wait, and the read follows. */
    method AnsweredExchange(ghost write: Op, ticks: nat, ghost read: Op)
      requires Valid() && Outstanding(Now()) == 0 && !timedWait && ExchangeOf(cmd, write, ticks, read)
      modifies this
      ensures Valid() && Outstanding(Now()) == 0 && !timedWait
      ensures events == old(events) + [CmdOp(write), WaitClear] + InterruptEvents(true)
                          + [WaitDone(ticks, Awoken), CmdOp(read)]
      ensures cmd == Step(Step(Step(old(cmd), write), Wait(ticks)), read)
    {
      hide IsRun, CleanInit, Step, CommandOk, ChosenBy, AnsweredInside, InterruptEvents;
      CommandTransfer(write);
      EspWaitSpiEintTimeoutClear();
      var _ := HandleInterrupt();
      var done := EspWaitSpiEintTimeoutCheck(ticks, false, false);
      CommandTransfer(read);
    }

    /** The same with the interrupt served between the write and the clear: the answer is erased, and the
        wait goes on with its flag down and nothing in flight. */
    method ErasedAnswer(ghost write: Op, ticks: nat) returns (done: bool)
      requires Valid() && Outstanding(Now()) == 0 && !timedWait
      requires write.Write? && Step(cmd, write).Waiting? && Step(Step(cmd, write), Wait(ticks)) != Broken
      modifies this
      ensures Valid() && Outstanding(Now()) == 0
      ensures events == old(events) + [CmdOp(write)] + InterruptEvents(true) + [WaitClear]
      ensures !done && timedWait && !flagIrqTimeout
    {
      hide IsRun, CleanInit, Step, CommandOk, ChosenBy, AnsweredInside, InterruptEvents;
      CommandTransfer(write);
      WaitRaisesSelector();
      var _ := HandleInterrupt();
      EspWaitSpiEintTimeoutClear();
      done := EspWaitSpiEintTimeoutCheck(ticks, false, false);
    }

    lemma WaitRaisesSelector()
      requires Valid() && cmd.Waiting?
      ensures isEintTimeout == 1
    {
      Invariant();
    }

    /** A short command whose first answer brings SUCCESS, from selector to selector. */
    method AcknowledgedCommand(ghost write: Op, ticks: nat, ghost read: Op)
      requires Valid() && Outstanding(Now()) == 0 && !timedWait && cmd.Idle?
      requires ExchangeOf(Armed, write, ticks, read) && Step(Step(Step(Armed, write), Wait(ticks)), read) == Restore
      modifies this
      ensures Valid() && Outstanding(Now()) == 0
      ensures cmd == Idle(0) && isEintTimeout == 0 && !timedWait
      ensures CommandTrace(events) == CommandTrace(old(events)) + [Select(1), write, Wait(ticks), read, Select(0)]
    {
      hide IsRun, CleanInit, Step, CommandOk, CommandTrace, InterruptEvents;
      ShortFrame(cmd);
      AssignSelector(1);
      AnsweredExchange(write, ticks, read);
      AssignSelector(0);
      AcknowledgedTrace(old(events), write, ticks, read);
    }

    /** Every event of the model is a step that some method above takes. */
    method Perform(e: Event)
      requires Valid() && Enabled(Now(), e) && (e.InitEnable? ==> Outstanding(Now()) == 0)
      modifies this
      ensures Valid() && Took(e)
    {
      hide IsRun, CleanInit, Step, ChosenBy, AnsweredInside, WokenInside, WokenSinceLastClear, Outstanding;
      match e
      case InitEnable => EspInitInterruptEnable();
      case TopDisable => RequestInterruptDisable();
      case TopRead => RequestInterruptChoose();
      case TopSchedule => RequestInterruptSchedule();
      case TaskletStart(t) => TaskletAction(t);
      case TaskletFlag(t) => if t { EspSpiEintHandlerTimeoutFlag(); } else { EspSpiEintHandlerFlag(); }
      case TaskletEnable(t) => EspSpiEintHandlerEnable(t);
      case PollClear(w) => EspWaitSpiEintClear(w);
      case PollReturn(w) => var _ := EspWaitSpiEintCheck(w, false);
      case PollSignal(w) => EspWaitSpiEintInterrupted(w);
      case CmdOp(op) => if op.Select? { AssignSelector(op.value); } else { CommandTransfer(op); }
      case WaitClear => EspWaitSpiEintTimeoutClear();
      case WaitDone(n, how) =>
        if how.Awoken? {
          var _ := EspWaitSpiEintTimeoutCheck(n, false, false);
        } else {
          EspWaitSpiEintTimeoutGivesUp(n, how);
        }
    }
  }

  /** So the objects are exactly as general as the runs: every clean run is the history of a line. */
  method Replay(ghost states: seq<State>, events: seq<Event>) returns (line: Line)
    requires IsRun(states, events) && CleanInit(states, events)
    ensures fresh(line) && line.Valid() && line.events == events && line.states == states
  {
    hide Next, Enabled, Outstanding;
    line := new Line();
    line.Starts();
    assert line.states == [states[0]];
    for i := 0 to |events|
      invariant fresh(line) && line.Valid()
      invariant line.events == events[..i] && line.states == states[..i + 1]
    {
      assert line.Now() == line.states[i] == states[i];
      line.Perform(events[i]);
      assert line.events == events[..i + 1];
      SameNext(line.states, line.events, states, events, i);
    }
  }

  lemma SameNext(a: seq<State>, es: seq<Event>, b: seq<State>, fs: seq<Event>, i: nat)
    requires IsRun(a, es) && IsRun(b, fs) && |es| == i + 1 && i < |fs|
    requires |a| == i + 2 && |b| == |fs| + 1 && a[..i + 1] == b[..i + 1] && es[i] == fs[i]
    ensures a == b[..i + 2]
  {
    hide Next, Enabled;
    assert a[i] == a[..i + 1][i] == b[..i + 1][i] == b[i];
    assert a[i + 1] == b[i + 1];
    assert a == a[..i + 1] + [a[i + 1]];
  }

  /** A write, its wait and its read, as the observer expects them from state m on. */
  predicate ExchangeOf(m: Mon, write: Op, ticks: nat, read: Op) {
    && write.Write? && read.Read? && Step(m, write).Waiting?
    && Step(Step(m, write), Wait(ticks)) != Broken
    && Step(Step(Step(m, write), Wait(ticks)), read) != Broken
  }

  lemma ShortFrame(m: Mon)
    requires m.Idle?
    ensures Step(m, Select(1)) == Armed && Step(Restore, Select(0)) == Idle(0)
  {
  }

  lemma AcknowledgedTrace(events: seq<Event>, write: Op, ticks: nat, read: Op)
    ensures CommandTrace(events + [CmdOp(Select(1))]
                         + [CmdOp(write), WaitClear] + InterruptEvents(true) + [WaitDone(ticks, Awoken), CmdOp(read)]
                         + [CmdOp(Select(0))])
         == CommandTrace(events) + [Select(1), write, Wait(ticks), read, Select(0)]
  {
    hide CommandTrace;
    var a := events + [CmdOp(Select(1))];
    CommandTraceSnoc(events, CmdOp(Select(1)));
    CommandTraceSnoc(a, CmdOp(write));
    CommandTraceSnoc(a + [CmdOp(write)], WaitClear);
    var b := a + [CmdOp(write)] + [WaitClear];
    InterruptTrace(b);
    var c := b + InterruptEvents(true);
    CommandTraceSnoc(c, WaitDone(ticks, Awoken));
    CommandTraceSnoc(c + [WaitDone(ticks, Awoken)], CmdOp(read));
    var d := c + [WaitDone(ticks, Awoken)] + [CmdOp(read)];
    CommandTraceSnoc(d, CmdOp(Select(0)));
    assert d == a + [CmdOp(write), WaitClear] + InterruptEvents(true) + [WaitDone(ticks, Awoken), CmdOp(read)];
  }

  lemma InterruptTrace(events: seq<Event>)
    ensures CommandTrace(events + InterruptEvents(true)) == CommandTrace(events)
  {
    hide CommandTrace;
    var es, at := InterruptEvents(true), events;
    for i := 0 to |es|
      invariant at == events + es[..i] && CommandTrace(at) == CommandTrace(events)
    {
      CommandTraceSnoc(at, es[i]);
      at := at + [es[i]];
    }
    assert es[..|es|] == es;
  }

  // ---------------------------------------------------------------- what the history of a line shows

  lemma OtherIsIdle(s: State, t: bool)
    requires Balanced(s) && TaskletOf(s, t).pending
    ensures TaskletOf(s, t) == Tasklet(true, Off) && TaskletOf(s, !t) == Tasklet(false, Off) && s.top.TopIdle?
  {
  }

  /** The last event sets the flag that the selector picked at the latest top half. */
  ghost predicate ChosenBy(states: seq<State>, events: seq<Event>, t: bool)
    requires |states| == |events| + 1
  {
    exists i :: 0 <= i < |events| - 1 && events[i].TopRead? && (states[i].isEintTimeout == 1) == t
                && forall k :: i < k < |events| - 1 ==> !events[k].TopRead? && !events[k].TaskletFlag?
  }

  lemma FlagWasChosen(states: seq<State>, events: seq<Event>, t: bool)
    requires IsRun(states, events) && CleanInit(states, events)
    requires events != [] && events[|events| - 1] == TaskletFlag(t)
    ensures |states| == |events| + 1 && ChosenBy(states, events, t)
  {
    FlagFollowsItsTopHalf(states, events, |events| - 1, t);
  }

  /** Since poller w began the wait it is in, a data tasklet has run. */
  ghost predicate WokenInside(events: seq<Event>, w: nat) {
    exists i, m :: 0 <= i < m < |events| && events[i] == PollClear(w) && events[m] == TaskletFlag(false)
                   && forall k :: i < k < |events| ==> !Moves(events[k], w)
  }

  lemma ReturnWasWoken(states: seq<State>, events: seq<Event>, w: nat)
    requires IsRun(states, events) && events != [] && events[|events| - 1] == PollReturn(w)
    ensures WokenInside(events[..|events| - 1], w)
  {
    var n := |events| - 1;
    WaitIsSound(states, events, n, w);
    var i, m :| 0 <= i < m < n && events[i] == PollClear(w) && events[m] == TaskletFlag(false)
                && forall k :: i < k < n ==> !Moves(events[k], w);
    var before := events[..n];
    assert before[i] == PollClear(w) && before[m] == TaskletFlag(false);
  }

  /** A data tasklet has run, and no poller has cleared the flag since. */
  ghost predicate WokenSinceLastClear(events: seq<Event>) {
    exists m :: 0 <= m < |events| && events[m] == TaskletFlag(false)
                && forall k :: m < k < |events| ==> !events[k].PollClear?
  }

  lemma NoFlagNoWakeUp(states: seq<State>, events: seq<Event>)
    requires IsRun(states, events) && |states| == |events| + 1
    ensures states[|events|].flagIrq <==> WokenSinceLastClear(events)
  {
    if states[|events|].flagIrq {
      var m := LastDataFlag(states, events, |events|);
    }
    if m :| 0 <= m < |events| && events[m] == TaskletFlag(false)
            && forall k :: m < k < |events| ==> !events[k].PollClear? {
      WakeUpKeptIff(states, events, m, |events|);
    }
  }

  /** Since the command thread began its timed wait, a timeout tasklet has run. */
  ghost predicate AnsweredInside(events: seq<Event>) {
    exists i, m :: 0 <= i < m < |events| && events[i] == WaitClear && events[m] == TaskletFlag(true)
                   && forall k :: i < k < |events| ==> !events[k].WaitClear? && !events[k].WaitDone?
  }

  lemma EndWasAnswered(states: seq<State>, events: seq<Event>)
    requires IsRun(states, events) && events != []
    requires events[|events| - 1].WaitDone? && events[|events| - 1].how.Awoken?
    ensures AnsweredInside(events[..|events| - 1])
  {
    var n := |events| - 1;
    TimedWaitIsSound(states, events, n);
    var i, m :| 0 <= i < m < n && events[i] == WaitClear && events[m] == TaskletFlag(true)
                && forall k :: i < k < n ==> !events[k].WaitClear? && !events[k].WaitDone?;
    var before := events[..n];
    assert before[i] == WaitClear && before[m] == TaskletFlag(true);
  }
}
