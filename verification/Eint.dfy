/** The interrupt hand-off as interleaved atomic steps: one hard interrupt line, two tasklets, one
    command thread and any number of pollers. The command thread is any thread the wire observer accepts. */
module Eint {
  import opened Layout
  import opened Wire
  import opened Monitor
  import opened Grammar

  /** Where a tasklet function stands: not running, before its flag assignment, before `enable_irq`. */
  datatype RunPc = Off | Started | Flagged

  datatype Tasklet = Tasklet(pending: bool, run: RunPc)

  /** Where the hard handler stands: not running, line disabled, branch on the selector taken. */
  datatype TopPc = TopIdle | TopEntered | TopChosen(timeout: bool)

  datatype State = State(
    flagIrq: bool,
    flagIrqTimeout: bool,
    isEintTimeout: int,
    depth: nat,                // disable depth of the line
    top: TopPc,
    data: Tasklet,
    timer: Tasklet,
    waiting: set<nat>,         // pollers that cleared `flag_irq` and have not returned
    cmd: Mon,
    timedWait: bool)           // the command thread cleared `flag_irq_timeout` and has not returned

  datatype WaitEnd = Awoken | TimedOut | Interrupted

  datatype Event =
    | InitEnable               // the `enable_irq` at the end of a probe's `esp_init_interrupt`
    | TopDisable
    | TopRead
    | TopSchedule
    | TaskletStart(timeout: bool)
    | TaskletFlag(timeout: bool)
    | TaskletEnable(timeout: bool)
    | PollClear(w: nat)
    | PollReturn(w: nat)       // the wait condition was found true
    | PollSignal(w: nat)       // a signal ended the wait
    | CmdOp(op: Op)
    | WaitClear
    | WaitDone(ticks: nat, how: WaitEnd)

  /** Just after `request_irq` of the first probe: the line is on, nothing has happened. */
  const START := State(false, false, 0, 0, TopIdle, Tasklet(false, Off), Tasklet(false, Off), {}, Idle(0), false)

  function TaskletOf(s: State, timeout: bool): Tasklet {
    if timeout then s.timer else s.data
  }

  function WithTasklet(s: State, timeout: bool, t: Tasklet): State {
    if timeout then s.(timer := t) else s.(data := t)
  }

  /** `enable_irq`: at depth 0 it changes nothing. */
  function Enable(s: State): State {
    s.(depth := if s.depth == 0 then 0 else s.depth - 1)
  }

  predicate Enabled(s: State, e: Event) {
    match e
    case InitEnable => true
    case TopDisable => s.depth == 0 && s.top.TopIdle?
    case TopRead => s.top.TopEntered?
    case TopSchedule => s.top.TopChosen?
    case TaskletStart(t) => TaskletOf(s, t).pending && TaskletOf(s, t).run.Off?
    case TaskletFlag(t) => TaskletOf(s, t).run.Started?
    case TaskletEnable(t) => TaskletOf(s, t).run.Flagged?
    case PollClear(w) => w !in s.waiting
    case PollReturn(w) => w in s.waiting && s.flagIrq
    case PollSignal(w) => w in s.waiting
    case CmdOp(op) => !s.timedWait && !op.Wait? && Step(s.cmd, op) != Broken
    case WaitClear => !s.timedWait && s.cmd.Waiting?
    case WaitDone(n, how) => s.timedWait && Step(s.cmd, Wait(n)) != Broken && (how.Awoken? ==> s.flagIrqTimeout)
  }

  function Next(s: State, e: Event): State
    requires Enabled(s, e)
  {
    match e
    case InitEnable => Enable(s)
    case TopDisable => s.(depth := s.depth + 1, top := TopEntered)
    case TopRead => s.(top := TopChosen(s.isEintTimeout == 1))
    case TopSchedule => WithTasklet(s, s.top.timeout, TaskletOf(s, s.top.timeout).(pending := true)).(top := TopIdle)
    case TaskletStart(t) => WithTasklet(s, t, Tasklet(false, Started))
    case TaskletFlag(t) =>
      var s' := WithTasklet(s, t, TaskletOf(s, t).(run := Flagged));
      if t then s'.(flagIrqTimeout := true) else s'.(flagIrq := true)
    case TaskletEnable(t) => Enable(WithTasklet(s, t, TaskletOf(s, t).(run := Off)))
    case PollClear(w) => s.(flagIrq := false, waiting := s.waiting + {w})
    case PollReturn(w) => s.(waiting := s.waiting - {w})
    case PollSignal(w) => s.(waiting := s.waiting - {w})
    case CmdOp(op) => s.(cmd := Step(s.cmd, op), isEintTimeout := if op.Select? then op.value else s.isEintTimeout)
    case WaitClear => s.(flagIrqTimeout := false, timedWait := true)
    case WaitDone(n, _) => s.(cmd := Step(s.cmd, Wait(n)), timedWait := false)
  }

  /** A run: any interleaving of enabled steps from the start. */
  ghost predicate IsRun(states: seq<State>, events: seq<Event>) {
    && |states| == |events| + 1
    && states[0] == START
    && forall i :: 0 <= i < |events| ==> Enabled(states[i], events[i]) && states[i + 1] == Next(states[i], events[i])
  }

  // ---------------------------------------------------------------- disable depth

  function Count(b: bool): nat {
    if b then 1 else 0
  }

  /** Interrupts whose top half has disabled the line and whose tasklet has not yet enabled it again. */
  function Outstanding(s: State): nat {
    Count(!s.top.TopIdle?)
    + Count(s.data.pending) + Count(!s.data.run.Off?)
    + Count(s.timer.pending) + Count(!s.timer.run.Off?)
  }

  predicate Balanced(s: State) {
    s.depth == Outstanding(s) <= 1
  }

  /** Every probe-time `enable_irq` finds no interrupt in flight. */
  ghost predicate CleanInit(states: seq<State>, events: seq<Event>)
    requires |states| == |events| + 1
  {
    forall j :: 0 <= j < |events| && events[j].InitEnable? ==> Outstanding(states[j]) == 0
  }

  lemma StepKeepsBalance(s: State, e: Event)
    requires Balanced(s) && Enabled(s, e)
    requires e.InitEnable? ==> Outstanding(s) == 0
    ensures Balanced(Next(s, e))
  {
    hide Step;
  }

  lemma {:induction false} BalancedUpTo(states: seq<State>, events: seq<Event>, n: nat)
    requires IsRun(states, events) && CleanInit(states, events) && n < |states|
    ensures Balanced(states[n])
  {
    if n > 0 {
      BalancedUpTo(states, events, n - 1);
      StepKeepsBalance(states[n - 1], events[n - 1]);
    }
  }

  /** The line stays balanced in every state of a run exactly when no probe-time `enable_irq` hits an
      interrupt that is being handled. */
  lemma BalancedIff(states: seq<State>, events: seq<Event>)
    requires IsRun(states, events)
    ensures (forall n :: 0 <= n < |states| ==> Balanced(states[n])) <==> CleanInit(states, events)
  {
    if CleanInit(states, events) {
      forall n | 0 <= n < |states|
        ensures Balanced(states[n])
      {
        BalancedUpTo(states, events, n);
      }
    } else {
      var j :| 0 <= j < |events| && events[j].InitEnable? && Outstanding(states[j]) != 0;
      assert states[j + 1] == Next(states[j], events[j]) == Enable(states[j]);
      assert !(Balanced(states[j]) && Balanced(states[j + 1]));
    }
  }

  /** In a balanced run no `tasklet_schedule` is swallowed by one already pending, and the tasklets are
      never both active. */
  lemma NothingCoalesces(states: seq<State>, events: seq<Event>, n: nat)
    requires IsRun(states, events) && CleanInit(states, events) && n < |states|
    ensures !(states[n].data.pending && states[n].timer.pending)
    ensures states[n].data.run.Off? || states[n].timer.run.Off?
    ensures n < |events| && events[n].TopSchedule? ==>
      states[n].top.TopChosen? && TaskletOf(states[n], states[n].top.timeout) == Tasklet(false, Off)
    ensures n < |events| && events[n].TopDisable? ==> Outstanding(states[n]) == 0
  {
    BalancedUpTo(states, events, n);
  }

  // ---------------------------------------------------------------- building runs

  lemma ExtendRun(states: seq<State>, events: seq<Event>, e: Event)
    requires IsRun(states, events) && Enabled(states[|events|], e)
    ensures IsRun(states + [Next(states[|events|], e)], events + [e])
    ensures CleanInit(states, events) && (e.InitEnable? ==> Outstanding(states[|events|]) == 0) <==>
            CleanInit(states + [Next(states[|events|], e)], events + [e])
  {
    hide Enabled, Next, Outstanding;
    var states', events' := states + [Next(states[|events|], e)], events + [e];
    assert forall i :: 0 <= i < |events| ==> events'[i] == events[i] && states'[i] == states[i];
    assert events'[|events|] == e && states'[|events|] == states[|events|];
  }

  /** One more step that is not a probe's `enable_irq`. */
  lemma Extend(states: seq<State>, events: seq<Event>, e: Event) returns (states': seq<State>, events': seq<Event>)
    requires IsRun(states, events) && CleanInit(states, events)
    requires Enabled(states[|events|], e) && !e.InitEnable?
    ensures IsRun(states', events') && CleanInit(states', events')
    ensures events' == events + [e] && |states'| == |events'| + 1
    ensures states'[|events'|] == Next(states[|events|], e)
  {
    ExtendRun(states, events, e);
    states', events' := states + [Next(states[|events|], e)], events + [e];
  }

  function InterruptEvents(t: bool): seq<Event> {
    [TopDisable, TopRead, TopSchedule, TaskletStart(t), TaskletFlag(t), TaskletEnable(t)]
  }

  function Flag(s: State, t: bool): State {
    if t then s.(flagIrqTimeout := true) else s.(flagIrq := true)
  }

  const TOP_EVENTS: seq<Event> := [TopDisable, TopRead, TopSchedule]

  /** A top half without interference leaves the line disabled and the selected tasklet pending. */
  lemma ServeTop(states: seq<State>, events: seq<Event>) returns (states': seq<State>, events': seq<Event>)
    requires IsRun(states, events) && CleanInit(states, events) && |states| == |events| + 1
    requires Outstanding(states[|events|]) == 0
    ensures IsRun(states', events') && CleanInit(states', events') && |states'| == |events'| + 1
    ensures var s, t := states[|events|], states[|events|].isEintTimeout == 1;
            && events' == events + TOP_EVENTS
            && states'[|events'|] == WithTasklet(s, t, Tasklet(true, Off)).(depth := 1)
  {
    hide Step, IsRun, CleanInit;
    BalancedUpTo(states, events, |events|);
    var s, t := states[|events|], states[|events|].isEintTimeout == 1;
    states', events' := Extend(states, events, TopDisable);
    assert states'[|events'|] == s.(depth := 1, top := TopEntered);
    states', events' := Extend(states', events', TopRead);
    assert states'[|events'|] == s.(depth := 1, top := TopChosen(t));
    states', events' := Extend(states', events', TopSchedule);
  }

  /** A run of a pending tasklet without interference sets its flag and enables the line. */
  lemma ServeTasklet(states: seq<State>, events: seq<Event>, t: bool)
    returns (states': seq<State>, events': seq<Event>)
    requires IsRun(states, events) && CleanInit(states, events) && |states| == |events| + 1
    requires TaskletOf(states[|events|], t) == Tasklet(true, Off)
    ensures IsRun(states', events') && CleanInit(states', events') && |states'| == |events'| + 1
    ensures var s := states[|events|];
            && events' == events + [TaskletStart(t), TaskletFlag(t), TaskletEnable(t)]
            && states'[|events'|] == Flag(Enable(WithTasklet(s, t, Tasklet(false, Off))), t)
  {
    hide Step, IsRun, CleanInit;
    var s := states[|events|];
    states', events' := Extend(states, events, TaskletStart(t));
    assert states'[|events'|] == WithTasklet(s, t, Tasklet(false, Started));
    states', events' := Extend(states', events', TaskletFlag(t));
    assert states'[|events'|] == Flag(WithTasklet(s, t, Tasklet(false, Flagged)), t);
    states', events' := Extend(states', events', TaskletEnable(t));
  }

  /** An interrupt served without interference: afterwards the selected flag is set and everything else,
      the line included, is as before. */
  lemma ServeInterrupt(states: seq<State>, events: seq<Event>) returns (states': seq<State>, events': seq<Event>)
    requires IsRun(states, events) && CleanInit(states, events) && Outstanding(states[|events|]) == 0
    ensures IsRun(states', events') && CleanInit(states', events')
    ensures var s, t := states[|events|], states[|events|].isEintTimeout == 1;
            events' == events + InterruptEvents(t) && states'[|events'|] == Flag(s, t)
  {
    hide Step, Next, Enabled, IsRun, CleanInit;
    LastState(states, events);
    BalancedUpTo(states, events, |events|);
    var s, t := states[|events|], states[|events|].isEintTimeout == 1;
    states', events' := ServeTop(states, events);
    states', events' := ServeTasklet(states', events', t);
  }

  lemma LastState(states: seq<State>, events: seq<Event>)
    requires IsRun(states, events)
    ensures |states| == |events| + 1
  {
  }

  /** A probe's `enable_irq` that meets an interrupt in flight lets the next one in too early: the line
      is no longer balanced, and a `tasklet_schedule` falls on a tasklet that is still pending, so two
      interrupts end in one wake-up. */
  lemma EarlyEnableLosesAnInterrupt() returns (states: seq<State>, events: seq<Event>)
    ensures IsRun(states, events) && !CleanInit(states, events)
    ensures exists j :: 0 <= j < |events| && !Balanced(states[j])
    ensures exists j :: 0 <= j < |events| && events[j].TopSchedule? && states[j].top == TopChosen(false)
                        && states[j].data.pending && states[j + 1] == states[j].(top := TopIdle)
  {
    hide Step;
    events := [TopDisable, TopRead, TopSchedule, InitEnable, TopDisable, TopRead, TopSchedule];
    var s1 := Next(START, TopDisable);
    var s2 := Next(s1, TopRead);
    var s3 := Next(s2, TopSchedule);
    var s4 := Next(s3, InitEnable);
    var s5 := Next(s4, TopDisable);
    var s6 := Next(s5, TopRead);
    states := [START, s1, s2, s3, s4, s5, s6, Next(s6, TopSchedule)];
    assert events[3].InitEnable? && Outstanding(states[3]) == 1;
    assert !Balanced(states[6]);
    assert states[7] == states[6].(top := TopIdle);
    assert events[6].TopSchedule? && states[6].top == TopChosen(false) && states[6].data.pending;
  }

  // ---------------------------------------------------------------- the command thread and the selector

  ghost predicate CommandOk(s: State) {
    && s.cmd != Broken
    && s.isEintTimeout == Selector(s.cmd)
    && (s.timedWait ==> s.cmd.Waiting?)
  }

  lemma StepKeepsCommand(s: State, e: Event)
    requires CommandOk(s) && Enabled(s, e)
    ensures CommandOk(Next(s, e))
  {
    hide Step;
    match e
    case CmdOp(op) => SelectorFollowsStep(s.cmd, op);
    case WaitDone(k, _) => SelectorFollowsStep(s.cmd, Wait(k));
    case _ =>
  }

  lemma {:induction false} CommandOkUpTo(states: seq<State>, events: seq<Event>, n: nat)
    requires IsRun(states, events) && n < |states|
    ensures CommandOk(states[n])
  {
    hide Step, Next, Enabled;
    if n > 0 {
      CommandOkUpTo(states, events, n - 1);
      StepKeepsCommand(states[n - 1], events[n - 1]);
    } else {
      StartIsOk();
    }
  }

  lemma StartIsOk()
    ensures CommandOk(START)
  {
  }

  /** In every state of every interleaving: the selector is 1 while the command thread sits in a timed
      wait, 0 while it does a data read, and between sends it is what the last send left. */
  lemma SelectorInEveryState(states: seq<State>, events: seq<Event>, n: nat)
    requires IsRun(states, events) && n < |states|
    ensures var s := states[n];
            && (s.timedWait ==> s.isEintTimeout == 1)
            && (s.cmd.Reading? || s.cmd.Echo? ==> s.isEintTimeout == 0)
            && (s.cmd.Idle? ==> s.isEintTimeout == s.cmd.sel)
  {
    CommandOkUpTo(states, events, n);
  }

  /** What the command thread does in one event, in the vocabulary of the bus trace. */
  function OpsOf(e: Event): seq<Op> {
    match e
    case CmdOp(op) => [op]
    case WaitDone(n, _) => [Wait(n)]
    case _ => []
  }

  function CommandTrace(events: seq<Event>): seq<Op> {
    if events == [] then [] else CommandTrace(events[..|events| - 1]) + OpsOf(events[|events| - 1])
  }

  lemma CommandStep(s: State, e: Event)
    requires Enabled(s, e)
    ensures Next(s, e).cmd == Observe(s.cmd, OpsOf(e))
  {
    hide Step, Observe;
    ObserveNothing(s.cmd);
    if e.CmdOp? || e.WaitDone? {
      ObserveOne(s.cmd, if e.CmdOp? then e.op else Wait(e.ticks));
    }
  }

  /** The command thread of a run is exactly a thread that the observer follows. */
  lemma {:induction false} CommandIsObserved(states: seq<State>, events: seq<Event>, n: nat)
    requires IsRun(states, events) && n < |states|
    ensures states[n].cmd == Observe(Idle(0), CommandTrace(events[..n]))
  {
    hide Step, Observe, Enabled, Next, OpsOf;
    if n == 0 {
      ObserveNothing(Idle(0));
    } else {
      CommandIsObserved(states, events, n - 1);
      CommandStep(states[n - 1], events[n - 1]);
      assert events[..n][..n - 1] == events[..n - 1];
      ObserveAppend(Idle(0), CommandTrace(events[..n - 1]), OpsOf(events[n - 1]));
    }
  }

  /** So what the command thread of a run has done so far is always part of a session of the driver. */
  lemma CommandIsPartOfSession(states: seq<State>, events: seq<Event>, n: nat)
    requires IsRun(states, events) && n < |states|
    ensures IsPartOfSession(CommandTrace(events[..n]))
  {
    hide Step, Observe, IsPartOfSession, CommandTrace;
    CommandIsObserved(states, events, n);
    CommandOkUpTo(states, events, n);
    UnbrokenTracesArePartsOfSessions(CommandTrace(events[..n]));
  }

  /** Only the command thread has moved since the start. */
  predicate OnlyCommands(s: State) {
    s == START.(cmd := s.cmd, isEintTimeout := s.isEintTimeout)
  }

  /** One more operation of the command thread alone; a timed wait is begun and times out. */
  lemma ExtendOp(states: seq<State>, events: seq<Event>, op: Op)
    returns (states': seq<State>, events': seq<Event>)
    requires IsRun(states, events) && CleanInit(states, events) && |states| == |events| + 1
    requires OnlyCommands(states[|events|]) && Step(states[|events|].cmd, op) != Broken
    ensures IsRun(states', events') && CleanInit(states', events') && |states'| == |events'| + 1
    ensures CommandTrace(events') == CommandTrace(events) + [op]
    ensures OnlyCommands(states'[|events'|]) && states'[|events'|].cmd == Step(states[|events|].cmd, op)
  {
    hide Step, IsRun, CleanInit, CommandTrace;
    if op.Wait? {
      WaitNeedsWaiting(states[|events|].cmd, op);
      states', events' := Extend(states, events, WaitClear);
      assert states'[|events'|] == states[|events|].(timedWait := true);
      var done := WaitDone(op.timeout, TimedOut);
      CommandTraceSnoc(events, WaitClear);
      CommandTraceSnoc(events', done);
      states', events' := Extend(states', events', done);
    } else {
      CommandTraceSnoc(events, CmdOp(op));
      states', events' := Extend(states, events, CmdOp(op));
    }
  }

  /** Conversely, every bus trace the observer accepts is the command thread of some run, so the runs
      cover every session of the driver. This run has no interrupt and no poller in it. */
  lemma {:induction false} ObservedIsRun(ops: seq<Op>) returns (states: seq<State>, events: seq<Event>)
    requires Observe(Idle(0), ops) != Broken
    ensures IsRun(states, events) && CleanInit(states, events) && |states| == |events| + 1
    ensures CommandTrace(events) == ops
    ensures states[|events|].cmd == Observe(Idle(0), ops) && OnlyCommands(states[|events|])
    decreases |ops|
  {
    hide Step, Observe, IsRun, CleanInit, CommandTrace, OnlyCommands;
    if ops == [] {
      ObserveNothing(Idle(0));
      EmptyRun();
      return [START], [];
    }
    var n := |ops| - 1;
    PrefixNotBroken(Idle(0), ops, n);
    assert ops[..n + 1] == ops == ops[..n] + [ops[n]];
    states, events := ObservedIsRun(ops[..n]);
    states, events := ExtendOp(states, events, ops[n]);
  }

  lemma EmptyRun()
    ensures IsRun([START], []) && CleanInit([START], []) && OnlyCommands(START)
    ensures START.cmd == Idle(0) && CommandTrace([]) == []
  {
  }

  lemma WaitNeedsWaiting(m: Mon, op: Op)
    requires Step(m, op) != Broken && op.Wait?
    ensures m.Waiting?
  {
  }

  lemma CommandTraceSnoc(events: seq<Event>, e: Event)
    ensures CommandTrace(events + [e]) == CommandTrace(events) + OpsOf(e)
  {
    assert (events + [e])[..|events|] == events;
  }

  // ---------------------------------------------------------------- waiting

  /** Event k is poller w entering or leaving its wait. */
  predicate Moves(e: Event, w: nat) {
    e == PollClear(w) || e == PollReturn(w) || e == PollSignal(w)
  }

  lemma {:induction false} LastPollClear(states: seq<State>, events: seq<Event>, n: nat, w: nat) returns (i: nat)
    requires IsRun(states, events) && n < |states| && w in states[n].waiting
    ensures i < n && events[i] == PollClear(w)
    ensures forall k :: i < k < n ==> !Moves(events[k], w)
  {
    hide Step;
    assert Enabled(states[n - 1], events[n - 1]) && states[n] == Next(states[n - 1], events[n - 1]);
    if events[n - 1] == PollClear(w) {
      i := n - 1;
    } else {
      i := LastPollClear(states, events, n - 1, w);
    }
  }

  lemma FlagStep(s: State, e: Event)
    requires Enabled(s, e)
    ensures Next(s, e).flagIrq <==> (s.flagIrq && !e.PollClear?) || e == TaskletFlag(false)
    ensures Next(s, e).flagIrqTimeout <==> (s.flagIrqTimeout && !e.WaitClear?) || e == TaskletFlag(true)
  {
    hide Step;
  }

  lemma NoFlagAtStart()
    ensures !START.flagIrq && !START.flagIrqTimeout
  {
  }

  lemma {:induction false} LastDataFlag(states: seq<State>, events: seq<Event>, n: nat) returns (m: nat)
    requires IsRun(states, events) && n < |states| && states[n].flagIrq
    ensures m < n && events[m] == TaskletFlag(false)
    ensures forall k :: m < k < n ==> !events[k].PollClear?
  {
    hide Next, Enabled;
    NoFlagAtStart();
    FlagStep(states[n - 1], events[n - 1]);
    if events[n - 1] == TaskletFlag(false) {
      m := n - 1;
    } else {
      m := LastDataFlag(states, events, n - 1);
    }
  }

  /** `esp_wait_spi_eint` is sound for any number of pollers: a return without a signal means that a
      data tasklet ran inside this very wait. */
  lemma WaitIsSound(states: seq<State>, events: seq<Event>, j: nat, w: nat)
    requires IsRun(states, events) && j < |events| && events[j] == PollReturn(w)
    ensures exists i, m :: 0 <= i < m < j && events[i] == PollClear(w) && events[m] == TaskletFlag(false)
                           && forall k :: i < k < j ==> !Moves(events[k], w)
  {
    var i := LastPollClear(states, events, j, w);
    var m := LastDataFlag(states, events, j);
    assert i < m;
  }

  lemma {:induction false} LastWaitClear(states: seq<State>, events: seq<Event>, n: nat) returns (i: nat)
    requires IsRun(states, events) && n < |states| && states[n].timedWait
    ensures i < n && events[i] == WaitClear
    ensures forall k :: i < k < n ==> !events[k].WaitClear? && !events[k].WaitDone?
  {
    hide Step;
    assert Enabled(states[n - 1], events[n - 1]) && states[n] == Next(states[n - 1], events[n - 1]);
    if events[n - 1].WaitClear? {
      i := n - 1;
    } else {
      i := LastWaitClear(states, events, n - 1);
    }
  }

  lemma {:induction false} LastTimeoutFlag(states: seq<State>, events: seq<Event>, n: nat) returns (m: nat)
    requires IsRun(states, events) && n < |states| && states[n].flagIrqTimeout
    ensures m < n && events[m] == TaskletFlag(true)
    ensures forall k :: m < k < n ==> !events[k].WaitClear?
  {
    hide Next, Enabled;
    NoFlagAtStart();
    FlagStep(states[n - 1], events[n - 1]);
    if events[n - 1] == TaskletFlag(true) {
      m := n - 1;
    } else {
      m := LastTimeoutFlag(states, events, n - 1);
    }
  }

  /** The same for the timed wait, when it ends neither by timeout nor by a signal. */
  lemma TimedWaitIsSound(states: seq<State>, events: seq<Event>, j: nat)
    requires IsRun(states, events) && j < |events| && events[j].WaitDone? && events[j].how.Awoken?
    ensures exists i, m :: 0 <= i < m < j && events[i] == WaitClear && events[m] == TaskletFlag(true)
                           && forall k :: i < k < j ==> !events[k].WaitClear? && !events[k].WaitDone?
  {
    var i := LastWaitClear(states, events, j);
    var m := LastTimeoutFlag(states, events, j);
    assert i < m;
  }

  /** A wake-up given at event m is still visible in every state up to n exactly when no poller enters
      its wait in between. */
  lemma {:induction false} WakeUpKeptIff(states: seq<State>, events: seq<Event>, m: nat, n: nat)
    requires IsRun(states, events) && m < n < |states| && events[m] == TaskletFlag(false)
    ensures (forall k :: m < k <= n ==> states[k].flagIrq) <==> (forall k :: m < k < n ==> !events[k].PollClear?)
    decreases n
  {
    hide Next, Enabled;
    FlagStep(states[n - 1], events[n - 1]);
    assert states[n] == Next(states[n - 1], events[n - 1]);
    if n > m + 1 {
      WakeUpKeptIff(states, events, m, n - 1);
    } else {
      assert states[n].flagIrq;
    }
  }

  lemma {:induction false} StillWaiting(states: seq<State>, events: seq<Event>, i: nat, n: nat, w: nat)
    requires IsRun(states, events) && i < n < |states| && events[i] == PollClear(w)
    requires forall k :: i < k < n ==> events[k] != PollReturn(w) && events[k] != PollSignal(w)
    ensures w in states[n].waiting
    decreases n
  {
    hide Step;
    assert Enabled(states[n - 1], events[n - 1]) && states[n] == Next(states[n - 1], events[n - 1]);
    if n > i + 1 {
      StillWaiting(states, events, i, n - 1, w);
    }
  }

  /** The same for the flag of the timed wait: it stays up exactly until the command thread clears it. */
  lemma {:induction false} TimedWakeUpKeptIff(states: seq<State>, events: seq<Event>, m: nat, n: nat)
    requires IsRun(states, events) && m < n < |states| && events[m] == TaskletFlag(true)
    ensures (forall k :: m < k <= n ==> states[k].flagIrqTimeout) <==>
            (forall k :: m < k < n ==> !events[k].WaitClear?)
    decreases n
  {
    hide Next, Enabled;
    FlagStep(states[n - 1], events[n - 1]);
    assert states[n] == Next(states[n - 1], events[n - 1]);
    if n > m + 1 {
      TimedWakeUpKeptIff(states, events, m, n - 1);
    } else {
      assert states[n].flagIrqTimeout;
    }
  }

  /** What a timed wait can see: its condition holds if and only if a timeout tasklet ran after its own
      clear. An answer handled before the clear, but after the write, never counts. */
  lemma TimedWaitSeesIff(states: seq<State>, events: seq<Event>, i: nat, n: nat)
    requires IsRun(states, events) && i < n < |states| && events[i] == WaitClear
    requires forall k :: i < k < n ==> !events[k].WaitClear?
    ensures states[n].flagIrqTimeout <==> exists m :: i < m < n && events[m] == TaskletFlag(true)
  {
    if states[n].flagIrqTimeout {
      var m := LastTimeoutFlag(states, events, n);
      assert i < m;
    }
    if m :| i < m < n && events[m] == TaskletFlag(true) {
      TimedWakeUpKeptIff(states, events, m, n);
    }
  }

  /** And a poller's wait, while no other poller starts one. */
  lemma WaitSeesIff(states: seq<State>, events: seq<Event>, i: nat, n: nat)
    requires IsRun(states, events) && i < n < |states| && events[i].PollClear?
    requires forall k :: i < k < n ==> !events[k].PollClear?
    ensures states[n].flagIrq <==> exists m :: i < m < n && events[m] == TaskletFlag(false)
  {
    if states[n].flagIrq {
      var m := LastDataFlag(states, events, n);
      assert i < m;
    }
    if m :| i < m < n && events[m] == TaskletFlag(false) {
      WakeUpKeptIff(states, events, m, n);
    }
  }

  /** Inside one wait of a lone poller nothing is lost: once a data tasklet ran after the poller's clear,
      the wait condition holds in every state until the poller leaves. */
  lemma OneWaitLosesNothing(states: seq<State>, events: seq<Event>, w: nat, i: nat, m: nat, n: nat)
    requires IsRun(states, events) && i < m < n < |states|
    requires forall k :: 0 <= k < |events| && events[k].PollClear? ==> events[k].w == w
    requires events[i] == PollClear(w) && events[m] == TaskletFlag(false)
    requires forall k :: i < k < n ==> events[k] != PollReturn(w) && events[k] != PollSignal(w)
    ensures forall k :: m < k <= n ==> states[k].flagIrq && w in states[k].waiting
  {
    hide Step, Next;
    forall k | i < k <= n
      ensures w in states[k].waiting
    {
      StillWaiting(states, events, i, k, w);
    }
    forall k | m < k < n
      ensures !events[k].PollClear?
    {
      assert Enabled(states[k], events[k]);
    }
    WakeUpKeptIff(states, events, m, n);
  }

  /** Two pollers can lose a wake-up inside a wait: the second poller's clear erases the wake-up of the
      first, and the run ends with both asleep, no flag and no interrupt in flight. */
  lemma TwoPollersLoseAWakeUp() returns (states: seq<State>, events: seq<Event>)
    ensures IsRun(states, events) && CleanInit(states, events)
    ensures events == [PollClear(0)] + InterruptEvents(false) + [PollClear(1)]
    ensures var s := states[|events|]; s.waiting == {0, 1} && !s.flagIrq && Outstanding(s) == 0
  {
    hide Step, IsRun, CleanInit;
    EmptyRun();
    states, events := Extend([START], [], PollClear(0));
    LastState(states, events);
    states, events := ServeInterrupt(states, events);
    LastState(states, events);
    states, events := Extend(states, events, PollClear(1));
    LastState(states, events);
  }

  /** Between two waits even a lone poller loses one, at any such moment of any run: the interrupt is
      handled, and the poller's own clear erases the flag as the next wait begins. */
  lemma PollerErasesItsOwnWakeUp(states: seq<State>, events: seq<Event>, w: nat)
    returns (states': seq<State>, events': seq<Event>)
    requires IsRun(states, events) && CleanInit(states, events)
    requires var s := states[|events|]; Outstanding(s) == 0 && w !in s.waiting && s.isEintTimeout != 1
    ensures IsRun(states', events') && CleanInit(states', events')
    ensures events' == events + InterruptEvents(false) + [PollClear(w)]
    ensures var s, z := states[|events|], states'[|events'|];
            z.waiting == s.waiting + {w} && !z.flagIrq && Outstanding(z) == 0
  {
    hide Step, IsRun, CleanInit;
    states', events' := ServeInterrupt(states, events);
    LastState(states', events');
    states', events' := Extend(states', events', PollClear(w));
    LastState(states', events');
  }

  /** The command thread has the same gap, at every exchange of every run: an answer handled between the
      write and the clear is erased, and the timed wait is left without a flag or an interrupt in flight. */
  lemma CommandErasesItsOwnAnswer(states: seq<State>, events: seq<Event>)
    returns (states': seq<State>, events': seq<Event>)
    requires IsRun(states, events) && CleanInit(states, events)
    requires var s := states[|events|]; Outstanding(s) == 0 && s.cmd.Waiting? && !s.timedWait
    ensures IsRun(states', events') && CleanInit(states', events')
    ensures events' == events + InterruptEvents(true) + [WaitClear]
    ensures var z := states'[|events'|]; z.timedWait && !z.flagIrqTimeout && Outstanding(z) == 0
  {
    CommandOkUpTo(states, events, |events|);
    hide Step, IsRun, CleanInit;
    LastState(states, events);
    states', events' := ServeInterrupt(states, events);
    LastState(states', events');
    states', events' := Extend(states', events', WaitClear);
    LastState(states', events');
  }

  // ---------------------------------------------------------------- routing

  /** An interrupt routed to tasklet t has not yet set its flag. */
  predicate Unflagged(s: State, t: bool) {
    s.top == TopChosen(t) || TaskletOf(s, t).pending || TaskletOf(s, t).run.Started?
  }

  lemma UnflaggedStep(s: State, e: Event, t: bool)
    requires Balanced(s) && Enabled(s, e)
    ensures Unflagged(Next(s, e), t) <==>
      (Unflagged(s, t) && e != TaskletFlag(t)) || (e.TopRead? && (s.isEintTimeout == 1) == t)
    ensures e == TaskletFlag(t) ==> Unflagged(s, t)
    ensures e.TopRead? ==> !Unflagged(s, true) && !Unflagged(s, false)
    ensures !(Unflagged(s, true) && Unflagged(s, false))
  {
    hide Step;
  }

  lemma {:induction false} LastTopRead(states: seq<State>, events: seq<Event>, n: nat, t: bool) returns (i: nat)
    requires IsRun(states, events) && CleanInit(states, events) && n < |states| && Unflagged(states[n], t)
    ensures i < n && events[i].TopRead? && (states[i].isEintTimeout == 1) == t
    ensures forall k :: i < k < n ==> !events[k].TopRead? && !events[k].TaskletFlag?
  {
    hide Step, Next, Enabled, Unflagged;
    StartIsQuiet(t);
    BalancedUpTo(states, events, n - 1);
    UnflaggedStep(states[n - 1], events[n - 1], t);
    UnflaggedStep(states[n - 1], events[n - 1], !t);
    if events[n - 1].TopRead? {
      i := n - 1;
    } else {
      i := LastTopRead(states, events, n - 1, t);
    }
  }

  lemma StartIsQuiet(t: bool)
    ensures !Unflagged(START, t)
  {
  }

  /** Every flag assignment belongs to the latest top half, and sets the flag that the selector chose
      when that top half read it, whatever the selector has become since. */
  lemma FlagFollowsItsTopHalf(states: seq<State>, events: seq<Event>, m: nat, t: bool)
    requires IsRun(states, events) && CleanInit(states, events) && m < |events| && events[m] == TaskletFlag(t)
    ensures exists i :: 0 <= i < m && events[i].TopRead? && (states[i].isEintTimeout == 1) == t
                        && forall k :: i < k < m ==> !events[k].TopRead? && !events[k].TaskletFlag?
  {
    BalancedUpTo(states, events, m);
    UnflaggedStep(states[m], events[m], t);
    var i := LastTopRead(states, events, m, t);
  }

  lemma {:induction false} ReadStaysUnflagged(states: seq<State>, events: seq<Event>, i: nat, n: nat)
    requires IsRun(states, events) && CleanInit(states, events) && i < n < |states| && events[i].TopRead?
    requires forall k :: i < k < n ==> events[k] != TaskletFlag(states[i].isEintTimeout == 1)
    ensures Unflagged(states[n], states[i].isEintTimeout == 1)
    decreases n
  {
    hide Step, Next, Enabled, Unflagged;
    var t := states[i].isEintTimeout == 1;
    BalancedUpTo(states, events, n - 1);
    UnflaggedStep(states[n - 1], events[n - 1], t);
    if n > i + 1 {
      ReadStaysUnflagged(states, events, i, n - 1);
    }
  }

  /** And every top half is answered: before the next one reads the selector, the flag that the first
      one chose has been set. With the previous lemma, interrupts and flag assignments pair off. */
  lemma TopHalfIsAnswered(states: seq<State>, events: seq<Event>, i: nat, j: nat)
    requires IsRun(states, events) && CleanInit(states, events)
    requires i < j < |events| && events[i].TopRead? && events[j].TopRead?
    ensures exists m :: i < m < j && events[m] == TaskletFlag(states[i].isEintTimeout == 1)
  {
    if forall m :: i < m < j ==> events[m] != TaskletFlag(states[i].isEintTimeout == 1) {
      ReadStaysUnflagged(states, events, i, j);
      BalancedUpTo(states, events, j);
      UnflaggedStep(states[j], events[j], true);
      assert false;
    }
  }

  // ---------------------------------------------------------------- whose answer it was

  /** An interrupt has disabled the line and has not yet set a flag. */
  predicate Unserved(s: State) {
    s.top.TopEntered? || Unflagged(s, true) || Unflagged(s, false)
  }

  lemma UnservedStep(s: State, e: Event)
    requires Balanced(s) && Enabled(s, e)
    ensures Unserved(Next(s, e)) <==> (Unserved(s) && !e.TaskletFlag?) || e.TopDisable?
    ensures e.TaskletFlag? ==> Unserved(s)
    ensures e.TopDisable? ==> !Unserved(s)
  {
    hide Step;
  }

  /** Unserved stays as it is while no interrupt arrives and no flag is set. */
  lemma {:induction false} UnservedStays(states: seq<State>, events: seq<Event>, w: nat, n: nat)
    requires IsRun(states, events) && CleanInit(states, events) && w <= n < |states|
    requires forall k :: w <= k < n ==> !events[k].TopDisable?
    ensures !Unserved(states[w]) ==> !Unserved(states[n])
    ensures (forall k :: w <= k < n ==> !events[k].TaskletFlag?) ==> (Unserved(states[n]) <==> Unserved(states[w]))
    decreases n
  {
    hide Step, Next, Enabled, Unserved;
    if n > w {
      UnservedStays(states, events, w, n - 1);
      BalancedUpTo(states, events, n - 1);
      UnservedStep(states[n - 1], events[n - 1]);
    }
  }

  lemma {:induction false} FirstArrival(events: seq<Event>, w: nat, m: nat) returns (d: nat)
    requires m <= |events| && exists k :: w <= k < m && events[k].TopDisable?
    ensures w <= d < m && events[d].TopDisable? && forall k :: w <= k < d ==> !events[k].TopDisable?
    decreases m - w
  {
    if events[w].TopDisable? {
      d := w;
    } else {
      d := FirstArrival(events, w + 1, m);
    }
  }

  /** Whose interrupt sets a flag: counted from any moment w, for example that of a write, the flag set
      at m is due to an interrupt that arrived since then if and only if none was unserved at w or a flag
      was set in between. Otherwise the answer is older than the question. */
  lemma AnswerIsNewIff(states: seq<State>, events: seq<Event>, w: nat, m: nat)
    requires IsRun(states, events) && CleanInit(states, events)
    requires w <= m < |events| && events[m].TaskletFlag?
    ensures (exists d :: w <= d < m && events[d].TopDisable?) <==>
            !Unserved(states[w]) || exists k :: w <= k < m && events[k].TaskletFlag?
  {
    hide Step, Next, Enabled, Unserved;
    BalancedUpTo(states, events, m);
    UnservedStep(states[m], events[m]);
    if exists d :: w <= d < m && events[d].TopDisable? {
      var d := FirstArrival(events, w, m);
      BalancedUpTo(states, events, d);
      UnservedStep(states[d], events[d]);
      UnservedStays(states, events, w, d);
    } else {
      UnservedStays(states, events, w, m);
      if k :| w <= k < m && events[k].TaskletFlag? {
        BalancedUpTo(states, events, k);
        UnservedStep(states[k], events[k]);
        UnservedStays(states, events, k + 1, m);
      }
    }
  }

  lemma {:induction false} StillInTimedWait(states: seq<State>, events: seq<Event>, i: nat, n: nat)
    requires IsRun(states, events) && i < n < |states| && events[i] == WaitClear
    requires forall k :: i < k < n ==> !events[k].WaitDone?
    ensures states[n].timedWait
    decreases n
  {
    hide Step;
    assert Enabled(states[n - 1], events[n - 1]) && states[n] == Next(states[n - 1], events[n - 1]);
    if n > i + 1 {
      StillInTimedWait(states, events, i, n - 1);
    }
  }

  /** A timed wait that follows a write which found no interrupt unserved is woken only by one that
      arrived after the write. */
  lemma TimedWaitIsFresh(states: seq<State>, events: seq<Event>, w: nat, j: nat)
    requires IsRun(states, events) && CleanInit(states, events)
    requires w < j < |events| && events[j].WaitDone? && events[j].how.Awoken?
    requires !states[w].timedWait && !Unserved(states[w])
    ensures exists d, m :: w <= d < m < j && events[d].TopDisable? && events[m] == TaskletFlag(true)
  {
    TimedWaitIsSound(states, events, j);
    var i, m :| 0 <= i < m < j && events[i] == WaitClear && events[m] == TaskletFlag(true)
                && forall k :: i < k < j ==> !events[k].WaitClear? && !events[k].WaitDone?;
    if i < w {
      StillInTimedWait(states, events, i, w);
    }
    AnswerIsNewIff(states, events, w, m);
  }

  /** A stale answer is possible at every exchange: an interrupt whose top half ran before the frame was
      written wakes the wait for the answer to that frame. */
  lemma StaleAnswer(states: seq<State>, events: seq<Event>, op: Op)
    returns (states': seq<State>, events': seq<Event>, ticks: nat)
    requires IsRun(states, events) && CleanInit(states, events)
    requires var s := states[|events|];
             Outstanding(s) == 0 && !s.timedWait && op.Write? && Step(s.cmd, op).Waiting?
    ensures IsRun(states', events') && CleanInit(states', events')
    ensures events' == events + TOP_EVENTS + [CmdOp(op), WaitClear]
                       + [TaskletStart(true), TaskletFlag(true), WaitDone(ticks, Awoken)]
  {
    LastState(states, events);
    BalancedUpTo(states, events, |events|);
    CommandOkUpTo(states, events, |events|);
    var m := states[|events|].cmd;
    WriteNeedsSelector(m, op);
    ticks := Timeout(Step(m, op).x);
    WaitIsAccepted(Step(m, op).x);
    hide Step, IsRun, CleanInit, Outstanding;
    states', events' := ServeTop(states, events);
    states', events' := Extend(states', events', CmdOp(op));
    states', events' := Extend(states', events', WaitClear);
    var s := states'[|events'|];
    assert s.timer == Tasklet(true, Off) && s.timedWait && s.cmd == Step(m, op);
    states', events' := WakeAndEnd(states', events', ticks);
  }

  lemma WakeAndEnd(states: seq<State>, events: seq<Event>, ticks: nat)
    returns (states': seq<State>, events': seq<Event>)
    requires IsRun(states, events) && CleanInit(states, events) && |states| == |events| + 1
    requires var s := states[|events|];
             s.timer == Tasklet(true, Off) && s.timedWait && Step(s.cmd, Wait(ticks)) != Broken
    ensures IsRun(states', events') && CleanInit(states', events')
    ensures events' == events + [TaskletStart(true), TaskletFlag(true), WaitDone(ticks, Awoken)]
  {
    hide Step, IsRun, CleanInit;
    states', events' := Extend(states, events, TaskletStart(true));
    states', events' := Extend(states', events', TaskletFlag(true));
    states', events' := Extend(states', events', WaitDone(ticks, Awoken));
  }

  lemma WriteNeedsSelector(m: Mon, op: Op)
    requires op.Write? && Step(m, op).Waiting?
    ensures Selector(m) == 1
  {
  }

  lemma WaitIsAccepted(x: Exchange)
    ensures Step(Waiting(x), Wait(Timeout(x))) != Broken
  {
  }

  // ---------------------------------------------------------------- who is woken

  /** An interrupt wakes the pollers if and only if the selector was not 1 when its top half read it;
      between two sends, if and only if the last send did not leave it at 1. */
  lemma InterruptWakesPollersIff(states: seq<State>, events: seq<Event>, i: nat, m: nat)
    requires IsRun(states, events) && CleanInit(states, events)
    requires i < m < |events| && events[i].TopRead? && events[m].TaskletFlag?
    requires forall k :: i < k < m ==> !events[k].TaskletFlag?
    ensures events[m] == TaskletFlag(false) <==> states[i].isEintTimeout != 1
    ensures states[i].cmd.Idle? ==> (events[m] == TaskletFlag(false) <==> states[i].cmd.sel != 1)
  {
    FlagFollowsItsTopHalf(states, events, m, events[m].timeout);
    var j :| 0 <= j < m && events[j].TopRead? && (states[j].isEintTimeout == 1) == events[m].timeout
             && forall k :: j < k < m ==> !events[k].TopRead? && !events[k].TaskletFlag?;
    if i < j {
      TopHalfIsAnswered(states, events, i, j);
    }
    CommandOkUpTo(states, events, i);
  }

  /** In terms of the session: an interrupt that arrives after a list of sends wakes the pollers if and
      only if the last of them did not fragment. */
  lemma PollersWokenIff(states: seq<State>, events: seq<Event>, i: nat, m: nat, ms: seq<seq<byte>>, slave: Slave)
    requires IsRun(states, events) && CleanInit(states, events)
    requires i < m < |events| && events[i].TopRead? && events[m].TaskletFlag?
    requires forall k :: i < k < m ==> !events[k].TaskletFlag?
    requires forall k :: 0 <= k < |ms| ==> IsMessage(ms[k])
    requires CommandTrace(events[..i]) == Session(ms, slave, 0)
    ensures events[m] == TaskletFlag(false) <==> (ms == [] || !KindOf(ms[|ms| - 1]).Fragmented?)
  {
    hide Session, Step, KindOf;
    CommandIsObserved(states, events, i);
    SessionIsObserved(ms, slave, 0, 0);
    InterruptWakesPollersIff(states, events, i, m);
  }

  lemma PollThenInterrupt(states: seq<State>, events: seq<Event>, w: nat)
    returns (states': seq<State>, events': seq<Event>, t: bool)
    requires IsRun(states, events) && CleanInit(states, events) && |states| == |events| + 1
    requires OnlyCommands(states[|events|])
    ensures IsRun(states', events') && CleanInit(states', events') && |states'| == |events'| + 1
    ensures events' == events + ([PollClear(w)] + InterruptEvents(t)) && t == (states[|events|].isEintTimeout == 1)
    ensures var s := states'[|events'|];
            s.waiting == {w} && Outstanding(s) == 0 && (s.flagIrq <==> states[|events|].isEintTimeout != 1)
  {
    hide Step, IsRun, CleanInit, InterruptEvents;
    t := states[|events|].isEintTimeout == 1;
    states', events' := Extend(states, events, PollClear(w));
    states', events' := ServeInterrupt(states', events');
    LastState(states', events');
  }

  lemma SelectorOfIdle(states: seq<State>, events: seq<Event>, sel: int)
    requires IsRun(states, events) && |states| == |events| + 1 && states[|events|].cmd == Idle(sel)
    ensures states[|events|].isEintTimeout == sel
  {
    CommandOkUpTo(states, events, |events|);
  }

  lemma SessionSelectorIs(ms: seq<seq<byte>>)
    requires forall k :: 0 <= k < |ms| ==> IsMessage(ms[k])
    ensures SessionSelector(ms) == 1 <==> ms != [] && KindOf(ms[|ms| - 1]).Fragmented?
  {
    hide KindOf;
  }

  /** Both cases occur after every session: a poller starts to wait, one interrupt is handled, and the
      poller's condition holds or not according to the last send. After a fragmented one it stays asleep
      with no interrupt in flight. */
  lemma InterruptAfterSession(ms: seq<seq<byte>>, slave: Slave, w: nat)
    returns (states: seq<State>, events: seq<Event>, n: nat)
    requires forall k :: 0 <= k < |ms| ==> IsMessage(ms[k])
    ensures IsRun(states, events) && CleanInit(states, events)
    ensures n <= |events| && CommandTrace(events[..n]) == Session(ms, slave, 0)
    ensures exists t :: events[n..] == [PollClear(w)] + InterruptEvents(t)
    ensures var s := states[|events|];
            && s.waiting == {w} && Outstanding(s) == 0
            && (s.flagIrq <==> (ms == [] || !KindOf(ms[|ms| - 1]).Fragmented?))
  {
    hide Session, Step, Observe, KindOf, IsRun, CleanInit, InterruptEvents, Outstanding;
    SessionIsObserved(ms, slave, 0, 0);
    var states0, events0 := ObservedIsRun(Session(ms, slave, 0));
    n := |events0|;
    LastState(states0, events0);
    var t;
    states, events, t := PollThenInterrupt(states0, events0, w);
    SelectorOfIdle(states0, events0, SessionSelector(ms));
    assert events[..n] == events0 && events[n..] == [PollClear(w)] + InterruptEvents(t);
    SessionSelectorIs(ms);
  }

  // ---------------------------------------------------------------- after a fragmented send

  lemma {:induction false} SelectorStaysUp(states: seq<State>, events: seq<Event>, i: nat, n: nat)
    requires IsRun(states, events) && i <= n < |states| && states[i].isEintTimeout == 1
    requires forall k :: i <= k < n ==> events[k] != CmdOp(Select(0))
    ensures states[n].isEintTimeout == 1
    decreases n
  {
    hide Step;
    if n > i {
      SelectorStaysUp(states, events, i, n - 1);
      CommandOkUpTo(states, events, n - 1);
      assert Enabled(states[n - 1], events[n - 1]) && states[n] == Next(states[n - 1], events[n - 1]);
      if events[n - 1].CmdOp? && events[n - 1].op.Select? {
        SelectValues(states[n - 1].cmd, events[n - 1].op);
      }
    }
  }

  lemma SelectValues(m: Mon, op: Op)
    requires Step(m, op) != Broken && op.Select?
    ensures op.value == 0 || op.value == 1
  {
  }

  lemma {:induction false} NoDataFlagWhileUp(states: seq<State>, events: seq<Event>, i: nat, n: nat)
    requires IsRun(states, events) && CleanInit(states, events) && i <= n < |states|
    requires states[i].isEintTimeout == 1 && !Unflagged(states[i], false)
    requires forall k :: i <= k < n ==> events[k] != CmdOp(Select(0))
    ensures !Unflagged(states[n], false)
    ensures forall k :: i <= k < n ==> events[k] != TaskletFlag(false)
    decreases n
  {
    hide Step, Next, Enabled, Unflagged;
    if n > i {
      NoDataFlagWhileUp(states, events, i, n - 1);
      SelectorStaysUp(states, events, i, n - 1);
      BalancedUpTo(states, events, n - 1);
      UnflaggedStep(states[n - 1], events[n - 1], false);
    }
  }

  /** A fragmented send leaves the selector at 1, so until some later send drops it again no interrupt
      reaches a poller: a wait that starts in that period does not end there without a signal. */
  lemma FragmentedSendStarvesPollers(states: seq<State>, events: seq<Event>, i: nat, c: nat, j: nat, w: nat)
    requires IsRun(states, events) && CleanInit(states, events)
    requires i <= c < j < |events| && states[i].cmd == Idle(1) && !Unflagged(states[i], false)
    requires forall k :: i <= k < j ==> events[k] != CmdOp(Select(0))
    requires events[c] == PollClear(w) && forall k :: c < k < j ==> !Moves(events[k], w)
    ensures events[j] != PollReturn(w)
  {
    CommandOkUpTo(states, events, i);
    NoDataFlagWhileUp(states, events, i, j);
    if events[j] == PollReturn(w) {
      var m := LastDataFlag(states, events, j);
      assert false;
    }
  }
}
