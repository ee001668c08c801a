/** The HAL's polling workers: every start creates one more thread over the same two globals, and a
    stop only raises `destroyThread`. */
module Pollers {

  /** Where a worker stands: before the loop test, blocked in the eint ioctl, about to report, returned. */
  datatype Worker = AtTest | Reading | Reporting | Exited

  datatype State = State(destroyThread: bool, callback: bool, workers: seq<Worker>, delivered: nat)

  datatype Event =
    | Start(callback: bool)      // get_eint(true, cb)
    | Stop(callback: bool)       // get_eint(false, cb): remembers cb, sends the signal
    | Handler                    // the SIGUSR1 handler runs
    | Test(w: nat)
    | ReadReturns(w: nat)
    | Report(w: nat)

  const START := State(false, false, [], 0)

  predicate Enabled(s: State, e: Event) {
    match e
    case Start(_) | Stop(_) | Handler => true
    case Test(w) => w < |s.workers| && s.workers[w].AtTest?
    case ReadReturns(w) => w < |s.workers| && s.workers[w].Reading?
    case Report(w) => w < |s.workers| && s.workers[w].Reporting?
  }

  function Next(s: State, e: Event): State
    requires Enabled(s, e)
  {
    match e
    case Start(cb) => s.(destroyThread := false, callback := cb, workers := s.workers + [AtTest])
    case Stop(cb) => s.(callback := cb)
    case Handler => s.(destroyThread := true)
    case Test(w) => s.(workers := s.workers[w := if s.destroyThread then Exited else Reading])
    case ReadReturns(w) => s.(workers := s.workers[w := Reporting])
    case Report(w) => s.(workers := s.workers[w := AtTest], delivered := s.delivered + if s.callback then 1 else 0)
  }

  predicate IsWorkerStep(e: Event) {
    e.Test? || e.ReadReturns? || e.Report?
  }

  /** A run from s in which no start occurs. */
  ghost predicate StartFree(s: State, events: seq<Event>)
    decreases |events|
  {
    events == [] || (!events[0].Start? && Enabled(s, events[0]) && StartFree(Next(s, events[0]), events[1..]))
  }

  function Final(s: State, events: seq<Event>): State
    requires StartFree(s, events)
    decreases |events|
  {
    if events == [] then s else Final(Next(s, events[0]), events[1..])
  }

  /** Workers past their loop test: each can still deliver one callback. */
  function InFlight(ws: seq<Worker>): nat {
    if ws == [] then 0
    else InFlight(ws[..|ws| - 1]) + if ws[|ws| - 1].Reading? || ws[|ws| - 1].Reporting? then 1 else 0
  }

  function Rank(w: Worker): nat {
    match w
    case Reading => 3
    case Reporting => 2
    case AtTest => 1
    case Exited => 0
  }

  /** Worker steps still possible once the flag is up. */
  function Remaining(ws: seq<Worker>): nat {
    if ws == [] then 0 else Remaining(ws[..|ws| - 1]) + Rank(ws[|ws| - 1])
  }

  function WorkerSteps(events: seq<Event>): nat {
    if events == [] then 0 else (if IsWorkerStep(events[0]) then 1 else 0) + WorkerSteps(events[1..])
  }

  predicate AllExited(s: State) {
    forall w :: 0 <= w < |s.workers| ==> s.workers[w].Exited?
  }

  predicate KeepsCallback(events: seq<Event>) {
    forall i :: 0 <= i < |events| ==> !events[i].Stop? || events[i].callback
  }

  function Inside(w: Worker): nat {
    if w.Reading? || w.Reporting? then 1 else 0
  }

  lemma {:induction false} MoveOne(ws: seq<Worker>, w: nat, to: Worker)
    requires w < |ws|
    ensures InFlight(ws[w := to]) == InFlight(ws) - Inside(ws[w]) + Inside(to)
    ensures Remaining(ws[w := to]) == Remaining(ws) - Rank(ws[w]) + Rank(to)
  {
    var n := |ws| - 1;
    if w == n {
      assert ws[w := to][..n] == ws[..n];
    } else {
      assert ws[w := to][..n] == ws[..n][w := to];
      MoveOne(ws[..n], w, to);
    }
  }

  /** Once the flag is up, every worker step uses up one unit of the measure, and no step creates work
      or lets callbacks plus workers in flight grow. */
  lemma StepAfterStop(s: State, e: Event)
    requires s.destroyThread && Enabled(s, e) && !e.Start?
    ensures var s' := Next(s, e);
            && s'.destroyThread && |s'.workers| == |s.workers|
            && Remaining(s'.workers) + (if IsWorkerStep(e) then 1 else 0) == Remaining(s.workers)
            && s.delivered <= s'.delivered
            && s'.delivered + InFlight(s'.workers) <= s.delivered + InFlight(s.workers)
            && (s.callback ==> s'.delivered + InFlight(s'.workers) == s.delivered + InFlight(s.workers))
  {
    match e
    case Test(w) => MoveOne(s.workers, w, Exited);
    case ReadReturns(w) => MoveOne(s.workers, w, Reporting);
    case Report(w) => MoveOne(s.workers, w, AtTest);
    case _ =>
  }

  /** Over any continuation without a start: the callbacks still delivered are at most the workers past
      their loop test when the flag rose, and the worker steps are at most the measure. With a callback
      kept in place the balance is exact. */
  lemma {:induction false} CallbacksAfterStop(s: State, events: seq<Event>)
    requires s.destroyThread && StartFree(s, events)
    ensures var z := Final(s, events);
            && z.destroyThread && |z.workers| == |s.workers|
            && s.delivered <= z.delivered <= s.delivered + InFlight(s.workers)
            && z.delivered + InFlight(z.workers) <= s.delivered + InFlight(s.workers)
            && WorkerSteps(events) + Remaining(z.workers) == Remaining(s.workers)
            && (s.callback && KeepsCallback(events) ==>
                  z.delivered + InFlight(z.workers) == s.delivered + InFlight(s.workers))
    decreases |events|
  {
    if events != [] {
      StepAfterStop(s, events[0]);
      CallbacksAfterStop(Next(s, events[0]), events[1..]);
    }
  }

  lemma {:induction false} NothingRemains(ws: seq<Worker>)
    ensures Remaining(ws) == 0 <==> forall w :: 0 <= w < |ws| ==> ws[w].Exited?
  {
    if ws != [] {
      var n := |ws| - 1;
      NothingRemains(ws[..n]);
      if forall w :: 0 <= w < n ==> ws[..n][w].Exited? {
        assert forall w :: 0 <= w < n ==> ws[w] == ws[..n][w];
      } else {
        var w :| 0 <= w < n && !ws[..n][w].Exited?;
        assert !ws[w].Exited?;
      }
    }
  }

  lemma {:induction false} NoneInFlight(ws: seq<Worker>)
    requires forall w :: 0 <= w < |ws| ==> ws[w].Exited?
    ensures InFlight(ws) == 0
  {
    if ws != [] {
      NoneInFlight(ws[..|ws| - 1]);
    }
  }

  /** Progress and its bound: a worker can move unless all have exited; so any continuation that runs
      until no worker can move ends with all of them gone after exactly `Remaining` worker steps, and
      with the callback kept it has delivered exactly one callback per worker that was in flight. */
  lemma StopStopsEveryone(s: State, events: seq<Event>)
    requires s.destroyThread && StartFree(s, events)
    requires forall e :: IsWorkerStep(e) ==> !Enabled(Final(s, events), e)
    ensures AllExited(Final(s, events))
    ensures WorkerSteps(events) == Remaining(s.workers)
    ensures s.callback && KeepsCallback(events) ==> Final(s, events).delivered == s.delivered + InFlight(s.workers)
  {
    var z := Final(s, events);
    forall w | 0 <= w < |z.workers|
      ensures z.workers[w].Exited?
    {
      assert !Enabled(z, Test(w)) && !Enabled(z, ReadReturns(w)) && !Enabled(z, Report(w));
    }
    NothingRemains(z.workers);
    NoneInFlight(z.workers);
    CallbacksAfterStop(s, events);
  }

  // ---------------------------------------------------------------- restarts

  ghost predicate Runs(s: State, events: seq<Event>)
    decreases |events|
  {
    events == [] || (Enabled(s, events[0]) && Runs(Next(s, events[0]), events[1..]))
  }

  function EndOf(s: State, events: seq<Event>): State
    requires Runs(s, events)
    decreases |events|
  {
    if events == [] then s else EndOf(Next(s, events[0]), events[1..])
  }

  predicate StartAfter(events: seq<Event>, j: int) {
    exists k :: 0 <= k < |events| && j < k && events[k].Start?
  }

  /** The stop is in force: the handler ran and no start came after it, or the flag was up before. */
  predicate StopHolds(up: bool, events: seq<Event>) {
    || (up && !StartAfter(events, -1))
    || exists j :: 0 <= j < |events| && events[j].Handler? && !StartAfter(events, j)
  }

  lemma StartAfterShifts(events: seq<Event>, j: int)
    requires events != [] && j >= 0
    ensures StartAfter(events, j) <==> StartAfter(events[1..], j - 1)
    ensures StartAfter(events, -1) <==> events[0].Start? || StartAfter(events[1..], -1)
  {
    assert forall k :: 0 < k < |events| ==> events[k] == events[1..][k - 1];
  }

  lemma {:induction false} StopHoldsIff(s: State, events: seq<Event>)
    requires Runs(s, events)
    ensures EndOf(s, events).destroyThread <==> StopHolds(s.destroyThread, events)
    decreases |events|
  {
    if events == [] {
      assert !StartAfter(events, -1);
    } else {
      var tail, up := events[1..], Next(s, events[0]).destroyThread;
      StopHoldsIff(Next(s, events[0]), tail);
      StartAfterShifts(events, 0);
      if StopHolds(up, tail) && exists j :: 0 <= j < |tail| && tail[j].Handler? && !StartAfter(tail, j) {
        var j :| 0 <= j < |tail| && tail[j].Handler? && !StartAfter(tail, j);
        StartAfterShifts(events, j + 1);
        assert events[j + 1] == tail[j];
      }
      if exists j :: 0 < j < |events| && events[j].Handler? && !StartAfter(events, j) {
        var j :| 0 < j < |events| && events[j].Handler? && !StartAfter(events, j);
        StartAfterShifts(events, j);
        assert tail[j - 1] == events[j];
      }
    }
  }

  /** A worker's next loop test ends it if and only if the stop is still in force by then; a restart in
      between revives the worker, which goes on polling beside the new one. */
  lemma RestartRevivesIff(s: State, events: seq<Event>, w: nat)
    requires Runs(s, events) && Enabled(EndOf(s, events), Test(w))
    ensures Next(EndOf(s, events), Test(w)).workers[w].Exited? <==> StopHolds(s.destroyThread, events)
  {
    StopHoldsIff(s, events);
  }

  /** Such a run: the handler has run and the worker has not tested the flag yet when a start lowers it
      again; the worker reads on, beside the new one. */
  lemma RestartRevivesAWorker() returns (events: seq<Event>)
    ensures Runs(START, events) && Handler in events && Enabled(EndOf(START, events), Test(0))
    ensures var z := EndOf(START, events); |z.workers| == 2 && Next(z, Test(0)).workers[0].Reading?
  {
    events := [Start(true), Stop(true), Handler, Start(true)];
    assert Runs(START, []) && EndOf(START, []) == START;
    RunsSnoc(START, [], Start(true));
    RunsSnoc(START, [Start(true)], Stop(true));
    RunsSnoc(START, [Start(true), Stop(true)], Handler);
    RunsSnoc(START, [Start(true), Stop(true), Handler], Start(true));
    assert [] + [Start(true)] == [Start(true)];
    assert [Start(true)] + [Stop(true)] == [Start(true), Stop(true)];
    assert [Start(true), Stop(true)] + [Handler] == [Start(true), Stop(true), Handler];
    assert [Start(true), Stop(true), Handler] + [Start(true)] == events;
    assert events[2] == Handler;
  }

  lemma {:induction false} RunsSnoc(s: State, events: seq<Event>, e: Event)
    requires Runs(s, events) && Enabled(EndOf(s, events), e)
    ensures Runs(s, events + [e]) && EndOf(s, events + [e]) == Next(EndOf(s, events), e)
    decreases |events|
  {
    hide Next, Enabled;
    if events == [] {
      assert events + [e] == [e] && [e][1..] == [];
    } else {
      assert (events + [e])[1..] == events[1..] + [e];
      RunsSnoc(Next(s, events[0]), events[1..], e);
    }
  }

  // ---------------------------------------------------------------- what was delivered

  /** The callback that the latest call of `wifi_probe_get_eint` left behind. */
  predicate CallbackSet(events: seq<Event>) {
    events != [] &&
    match events[|events| - 1]
    case Start(cb) => cb
    case Stop(cb) => cb
    case _ => CallbackSet(events[..|events| - 1])
  }

  /** Reports made while a callback was set. */
  function Reports(events: seq<Event>): nat {
    if events == [] then 0
    else
      var before := events[..|events| - 1];
      Reports(before) + if events[|events| - 1].Report? && CallbackSet(before) then 1 else 0
  }

  function Starts(events: seq<Event>): nat {
    if events == [] then 0
    else Starts(events[..|events| - 1]) + if events[|events| - 1].Start? then 1 else 0
  }

  lemma {:induction false} RunsFront(s: State, events: seq<Event>)
    requires Runs(s, events) && events != []
    ensures var n := |events| - 1;
            && Runs(s, events[..n]) && Enabled(EndOf(s, events[..n]), events[n])
            && EndOf(s, events) == Next(EndOf(s, events[..n]), events[n])
    decreases |events|
  {
    hide Next, Enabled;
    var n := |events| - 1;
    if n == 0 {
      assert events[..0] == [] && events[1..] == [];
    } else {
      RunsFront(Next(s, events[0]), events[1..]);
      assert events[1..][..n - 1] == events[..n][1..];
    }
  }

  /** What the globals hold after any run: one worker per start, the latest callback, and exactly the
      reports made while one was set. */
  lemma {:induction false} GlobalsTellHistory(events: seq<Event>)
    requires Runs(START, events)
    ensures var z := EndOf(START, events);
            && |z.workers| == Starts(events) && z.callback == CallbackSet(events) && z.delivered == Reports(events)
    decreases |events|
  {
    hide Runs;
    if events == [] {
      NothingYet();
    } else {
      RunsFront(START, events);
      GlobalsTellHistory(events[..|events| - 1]);
    }
  }

  lemma NothingYet()
    ensures Runs(START, []) && EndOf(START, []) == START
    ensures Starts([]) == Reports([]) == 0 && !CallbackSet([])
  {
  }

  /** However the run goes on without a start: never more callbacks than workers past their loop test. */
  ghost predicate Winding(s: State) {
    forall events :: StartFree(s, events) ==>
      && s.delivered <= Final(s, events).delivered <= s.delivered + InFlight(s.workers)
      && WorkerSteps(events) <= Remaining(s.workers)
  }

  lemma StoppedIsWinding(s: State)
    requires s.destroyThread
    ensures Winding(s)
  {
    forall events | StartFree(s, events)
      ensures s.delivered <= Final(s, events).delivered <= s.delivered + InFlight(s.workers)
      ensures WorkerSteps(events) <= Remaining(s.workers)
    {
      CallbacksAfterStop(s, events);
    }
  }

  // ---------------------------------------------------------------- the globals of the HAL

  /** The globals, with the history that led to them; every theorem about runs holds in every state. */
  class PollGlobals {
    var destroyThread: bool
    var callback: bool          // mWifiProbeCallback is set
    var workers: seq<Worker>    // one entry per pthread_create
    ghost var delivered: nat
    ghost var history: seq<Event>

    ghost function Now(): State
      reads this
    {
      State(destroyThread, callback, workers, delivered)
    }

    ghost predicate Valid()
      reads this
    {
      Runs(START, history) && Now() == EndOf(START, history)
    }

    constructor ()
      ensures Valid() && history == []
    {
      destroyThread, callback, workers, delivered := false, false, [], 0;
      history := [];
    }

    /** What the fields mean in terms of the history. */
    lemma Meaning()
      requires Valid()
      ensures destroyThread <==> StopHolds(false, history)
      ensures |workers| == Starts(history) && callback == CallbackSet(history) && delivered == Reports(history)
    {
      StopHoldsIff(START, history);
      GlobalsTellHistory(history);
    }

    ghost method Record(e: Event)
      requires Runs(START, history) && Enabled(EndOf(START, history), e)
      requires Now() == Next(EndOf(START, history), e)
      modifies this`history
      ensures Valid() && history == old(history) + [e]
    {
      RunsSnoc(START, history, e);
      history := history + [e];
    }

    /** `wifi_probe_get_eint` with `checkWifiProbeEint`: a start cancels every stop so far and adds one
        worker at its loop test; a stop by itself changes nothing for any worker. */
    method GetEint(start: bool, cb: bool)
      requires Valid()
      modifies this`callback, this`destroyThread, this`workers, this`history
      ensures Valid() && history == old(history) + [if start then Start(cb) else Stop(cb)]
      ensures CallbackSet(history) <==> cb
      ensures start ==> !StopHolds(false, history) && workers == old(workers) + [AtTest]
      ensures !start ==> (StopHolds(false, history) <==> StopHolds(false, old(history))) && workers == old(workers)
      ensures Reports(history) == Reports(old(history))
    {
      Meaning();
      callback := cb;
      if start {
        destroyThread := false;
        workers := workers + [AtTest];
      }
      Record(if start then Start(cb) else Stop(cb));
      Meaning();
    }

    /** From here on the workers wind down, for as long as no start follows. */
    method Sighandler()
      requires Valid()
      modifies this`destroyThread, this`history
      ensures Valid() && history == old(history) + [Handler]
      ensures StopHolds(false, history) && Winding(Now())
    {
      destroyThread := true;
      Record(Handler);
      Meaning();
      StoppedIsWinding(Now());
    }

    /** The loop test of `thread_start`: the worker returns exactly when a stop is in force. */
    method LoopTest(w: nat) returns (returned: bool)
      requires Valid() && Enabled(Now(), Test(w))
      modifies this`workers, this`history
      ensures Valid() && history == old(history) + [Test(w)]
      ensures returned <==> StopHolds(false, old(history))
      ensures workers == old(workers)[w := if returned then Exited else Reading]
      ensures returned ==> Remaining(workers) + 1 == Remaining(old(workers))
    {
      Meaning();
      MoveOne(workers, w, if destroyThread then Exited else Reading);
      returned := destroyThread;
      if !destroyThread {
        workers := workers[w := Reading];
      } else {
        workers := workers[w := Exited];
      }
      Record(Test(w));
    }

    method EintReturns(w: nat)
      requires Valid() && Enabled(Now(), ReadReturns(w))
      modifies this`workers, this`history
      ensures Valid() && history == old(history) + [ReadReturns(w)]
      ensures workers == old(workers)[w := Reporting]
      ensures InFlight(workers) == InFlight(old(workers)) && Remaining(workers) + 1 == Remaining(old(workers))
    {
      MoveOne(workers, w, Reporting);
      workers := workers[w := Reporting];
      Record(ReadReturns(w));
    }

    /** One callback is delivered if the latest start or stop left one, and one worker fewer can deliver. */
    method ReportResults(w: nat)
      requires Valid() && Enabled(Now(), Report(w))
      modifies this`workers, this`delivered, this`history
      ensures Valid() && history == old(history) + [Report(w)]
      ensures workers == old(workers)[w := AtTest]
      ensures delivered == old(delivered) + if CallbackSet(old(history)) then 1 else 0
      ensures InFlight(workers) + 1 == InFlight(old(workers)) && Remaining(workers) + 1 == Remaining(old(workers))
    {
      Meaning();
      MoveOne(workers, w, AtTest);
      if callback {
        delivered := delivered + 1;
      }
      workers := workers[w := AtTest];
      Record(Report(w));
    }

    /** One turn of the loop: the test, the read (during which the handler may run), the report. */
    method Turn(w: nat, stop: bool) returns (returned: bool)
      requires Valid() && w < |workers| && workers[w].AtTest?
      modifies this`workers, this`delivered, this`destroyThread, this`history
      ensures Valid() && returned == old(destroyThread)
      ensures destroyThread <==> old(destroyThread) || stop
      ensures workers == old(workers)[w := if returned then Exited else AtTest]
      ensures delivered == old(delivered) + if callback && !returned then 1 else 0
    {
      hide StopHolds, Winding, InFlight, Remaining, Runs, Starts, Reports, CallbackSet;
      Meaning();
      returned := LoopTest(w);
      if stop {
        Sighandler();
        Meaning();
      }
      if !returned {
        EintReturns(w);
        Meaning();
        ReportResults(w);
      }
      Meaning();
    }

    /** `thread_start` for one worker whose signal handler runs during read number `stopIn`, counted
        from 0: that read is still reported, and the loop ends at the next test. */
    method ThreadStart(w: nat, stopIn: nat)
      requires Valid() && w < |workers| && workers[w].AtTest? && !StopHolds(false, history)
      modifies this`workers, this`delivered, this`destroyThread, this`history
      ensures Valid() && workers == old(workers)[w := Exited] && StopHolds(false, history)
      ensures delivered == old(delivered) + if CallbackSet(old(history)) then stopIn + 1 else 0
    {
      hide StopHolds, Runs, Starts, Reports, CallbackSet;
      Meaning();
      var turn, returned := 0, false;
      while !returned
        invariant Valid() && turn <= stopIn + 1
        invariant workers == old(workers)[w := if returned then Exited else AtTest]
        invariant destroyThread <==> turn == stopIn + 1
        invariant returned ==> destroyThread
        invariant delivered == old(delivered) + if callback then turn else 0
        decreases stopIn + 1 - turn, !returned
      {
        returned := Turn(w, turn == stopIn);
        if !returned {
          turn := turn + 1;
        }
      }
      Meaning();
    }
  }
}
