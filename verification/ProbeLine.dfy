/** The module state of the probe and the interrupt line together: every `enable_irq` that a probe attempt
    makes is an event of the line. */
module ProbeLine {
  import opened Probe
  import Eint
  import EintGlobals

  function InitEnables(events: seq<Eint.Event>): nat {
    if events == [] then 0
    else InitEnables(events[..|events| - 1]) + if events[|events| - 1].InitEnable? then 1 else 0
  }

  lemma InitEnablesSnoc(events: seq<Eint.Event>, e: Eint.Event)
    ensures InitEnables(events + [e]) == InitEnables(events) + if e.InitEnable? then 1 else 0
  {
    assert (events + [e])[..|events|] == events;
  }

  /** The two count the same calls. */
  ghost predicate Joined(m: EspModule, line: EintGlobals.Line)
    reads m, line
  {
    m.Valid() && line.Valid() && m.enables == InitEnables(line.events)
  }

  /** One attempt at a moment when an interrupt may be in flight. The line stays the end of a clean run
      unless the attempt gets as far as its `enable_irq` while one is. */
  method EspProbeOnLine(m: EspModule, line: EintGlobals.Line, o: Outcome) returns (status: int)
    requires Joined(m, line)
    modifies m, line
    ensures m.Valid() && m.history == old(m.history) + [o]
    ensures status == if old(m.probeIsOk) then -1 else FirstFailure(o)
    ensures m.enables == InitEnables(line.events)
    ensures Joined(m, line) <==>
      (!old(m.probeIsOk) && ReachesIrq(o) ==> Eint.Outstanding(old(line.Now())) == 0)
    ensures Joined(m, line) ==> line.Now() == old(line.Now())
  {
    var enables := !m.probeIsOk && o.alloc && o.buffer;
    status := m.EspProbe(o);
    if enables {
      InitEnablesSnoc(line.events, Eint.InitEnable);
      line.EspInitInterruptEnable();
    }
  }

  lemma AtStart()
    ensures Eint.Outstanding(Eint.START) == 0 && InitEnables([]) == 0
  {
  }

  /** Any attempts, each at a moment with nothing in flight, keep the line clean; after all of them it has
      seen one enable for every attempt that requested the interrupt. */
  method ProbeAttempts(os: seq<Outcome>) returns (m: EspModule, line: EintGlobals.Line)
    ensures fresh(m) && fresh(line) && Joined(m, line)
    ensures m.history == os && m.Now() == Run(INIT, os)
    ensures InitEnables(line.events) == CountIf(Effective(os), ReachesIrq)
    ensures line.Now() == Eint.START
  {
    hide Run, After, Effective, CountIf, InitEnables, Eint.Outstanding, Eint.IsRun, Eint.CleanInit;
    m := new EspModule();
    line := new EintGlobals.Line();
    line.Starts();
    AtStart();
    for i := 0 to |os|
      invariant fresh(m) && fresh(line) && Joined(m, line)
      invariant m.history == os[..i] && line.Now() == Eint.START
    {
      var _ := EspProbeOnLine(m, line, os[i]);
      assert os[..i] + [os[i]] == os[..i + 1];
    }
    assert os[..|os|] == os;
    AnyProbeRun(os);
  }
}
