/** Power and pin sequencing of OPEN and CLOSE, one pin change at a time. */
module Pins {

  datatype Mux = Spi | Gpio

  datatype PinState = PinState(reset: bool, down: bool, clk: Mux, cs: Mux, mi: Mux, mo: Mux)

  /** A pin state pointer: looked up, an error pointer, or still null. */
  datatype Lookup = Got | Error | Unset

  // The pin states in the order in which the platform driver looks them up.
  const RESET_HIGH := 0
  const RESET_LOW := 1
  const DOWN_HIGH := 2
  const DOWN_LOW := 3
  const MI_SPI := 4
  const MI_GPIO := 5
  const MO_SPI := 6
  const MO_GPIO := 7
  const CLK_SPI := 8
  const CLK_GPIO := 9
  const CS_SPI := 10
  const CS_GPIO := 11
  const EINT := 12
  const STATES := EINT + 1

  // Where the groups used by the three setters end.
  const RESET_END := 2
  const DOWN_END := 4
  const SPI_END := 12

  /** The lookups stop at the first that fails. `fails` is its number, STATES if none fails, and -1 if
      the pin controller itself could not be had, so that none was made. */
  function LookupOf(fails: int, i: nat): Lookup {
    if i < fails then Got else if i == fails then Error else Unset
  }

  function FirstFailure(found: seq<bool>): (n: nat)
    ensures n <= |found| && (n < |found| ==> !found[n])
    ensures forall i :: 0 <= i < n ==> found[i]
  {
    if found == [] || !found[0] then 0 else 1 + FirstFailure(found[1..])
  }

  /** One entry of the pin log: the pins after a change, during an SPI transfer, or when a pin state
      that was never looked up is selected. What the kernel does after such a fault is not modelled. */
  datatype Moment = Set(pins: PinState) | Transfer(pins: PinState) | Fault(pins: PinState)

  datatype Ioctl = OpenDev | CloseDev | Command(transfers: nat)

  type Log = h: seq<Moment> | h != [] witness [Set(PinState(false, false, Gpio, Gpio, Gpio, Gpio))]

  function Last(h: Log): PinState {
    h[|h| - 1].pins
  }

  predicate AllSpi(p: PinState) {
    p.clk.Spi? && p.cs.Spi? && p.mi.Spi? && p.mo.Spi?
  }

  predicate AllGpio(p: PinState) {
    p.clk.Gpio? && p.cs.Gpio? && p.mi.Gpio? && p.mo.Gpio?
  }

  predicate LeavesSpi(p: PinState, q: PinState) {
    || (p.clk.Spi? && q.clk.Gpio?)
    || (p.cs.Spi? && q.cs.Gpio?)
    || (p.mi.Spi? && q.mi.Gpio?)
    || (p.mo.Spi? && q.mo.Gpio?)
  }

  /** The chip comes out of reset only with its power-down line high and all SPI pins parked as GPIO;
      the pins are parked only while it is in reset; transfers need all four pins in SPI mode; and no
      pin state is used that was never looked up. */
  predicate SafeMoment(p: PinState, m: Moment) {
    match m
    case Set(q) => (!p.reset && q.reset ==> q.down && AllGpio(p) && AllGpio(q)) && (LeavesSpi(p, q) ==> !p.reset)
    case Transfer(q) => q == p && AllSpi(p)
    case Fault(_) => false
  }

  predicate Safe(h: Log) {
    forall i :: 0 < i < |h| ==> SafeMoment(h[i - 1].pins, h[i])
  }

  // ---------------------------------------------------------------- the log each call leaves

  function Change(h: Log, q: PinState): Log {
    h + [Set(q)]
  }

  datatype Verdict = Works | Refuses | Faults

  /** How a setter fares whose pin states are those from lo up to hi: one of its own lookups failed, or
      none, or an earlier one, so that its own were never made. */
  function VerdictOf(fails: int, lo: nat, hi: nat): Verdict {
    if fails >= hi then Works else if fails >= lo then Refuses else Faults
  }

  function ResetLog(fails: int, h: Log, cmd: int): Log {
    match VerdictOf(fails, 0, RESET_END)
    case Refuses => h
    case Works => if cmd == 0 || cmd == 1 then Change(h, Last(h).(reset := cmd == 1)) else h
    case Faults => if cmd == 0 || cmd == 1 then h + [Fault(Last(h))] else h
  }

  function DownLog(fails: int, h: Log, cmd: int): Log {
    match VerdictOf(fails, RESET_END, DOWN_END)
    case Refuses => h
    case Works => if cmd == 0 || cmd == 1 then Change(h, Last(h).(down := cmd == 1)) else h
    case Faults => if cmd == 0 || cmd == 1 then h + [Fault(Last(h))] else h
  }

  /** The four pins change one after the other: clock, chip select, input, output. */
  function MuxLog(h: Log, m: Mux): Log {
    var h1 := Change(h, Last(h).(clk := m));
    var h2 := Change(h1, Last(h1).(cs := m));
    var h3 := Change(h2, Last(h2).(mi := m));
    Change(h3, Last(h3).(mo := m))
  }

  function SpiModeLog(fails: int, h: Log, cmd: int): Log {
    match VerdictOf(fails, DOWN_END, SPI_END)
    case Refuses => h
    case Works => if cmd == 1 then MuxLog(h, Spi) else if cmd == 0 then MuxLog(h, Gpio) else h
    case Faults => if cmd == 0 || cmd == 1 then h + [Fault(Last(h))] else h
  }

  function OpenLog(fails: int, h: Log): Log {
    SpiModeLog(fails, ResetLog(fails, SpiModeLog(fails, ResetLog(fails, DownLog(fails, h, 1), 0), 0), 1), 1)
  }

  function CloseLog(fails: int, h: Log): Log {
    ResetLog(fails, DownLog(fails, h, 0), 0)
  }

  function TransferLog(h: Log, n: nat): Log
    decreases n
  {
    if n == 0 then h else TransferLog(h + [Transfer(Last(h))], n - 1)
  }

  function IoctlLog(fails: int, h: Log, c: Ioctl): Log {
    match c
    case OpenDev => OpenLog(fails, h)
    case CloseDev => CloseLog(fails, h)
    case Command(n) => TransferLog(h, n)
  }

  function RunLog(fails: int, h: Log, cs: seq<Ioctl>): Log
    decreases |cs|
  {
    if cs == [] then h else RunLog(fails, IoctlLog(fails, h, cs[0]), cs[1..])
  }

  /** Unknown pins, then the `hct_security_set_spi_mode(1)` of the probe. */
  function Probed(fails: int, initial: PinState): Log {
    SpiModeLog(fails, [Set(initial)], 1)
  }

  predicate Opens(cs: seq<Ioctl>) {
    exists i :: 0 <= i < |cs| && cs[i].OpenDev?
  }

  predicate Transfers(cs: seq<Ioctl>) {
    exists i :: 0 <= i < |cs| && cs[i].Command? && cs[i].transfers > 0
  }

  predicate Touches(cs: seq<Ioctl>) {
    exists i :: 0 <= i < |cs| && !cs[i].Command?
  }

  /** Everything asked of a serialized run of ioctls: each moment is safe, and afterwards the
      power-down line follows reset once an OPEN or a CLOSE has occurred. */
  predicate Lawful(fails: int, initial: PinState, cs: seq<Ioctl>) {
    var h := RunLog(fails, Probed(fails, initial), cs);
    Safe(h) && (Touches(cs) ==> Last(h).down == Last(h).reset)
  }

  // ---------------------------------------------------------------- every run is lawful

  lemma {:induction false} TransfersAreSafe(h: Log, n: nat)
    requires Safe(h) && AllSpi(Last(h))
    ensures Safe(TransferLog(h, n)) && Last(TransferLog(h, n)) == Last(h)
    decreases n
  {
    if n > 0 {
      TransfersAreSafe(h + [Transfer(Last(h))], n - 1);
    }
  }

  lemma SafeChange(h: Log, q: PinState)
    requires Safe(h) && SafeMoment(Last(h), Set(q))
    ensures Safe(Change(h, q)) && Last(Change(h, q)) == q
  {
  }

  lemma MuxIsSafe(h: Log, m: Mux)
    requires Safe(h) && (m.Gpio? ==> !Last(h).reset)
    ensures var h' := MuxLog(h, m);
            && Safe(h') && Last(h').reset == Last(h).reset && Last(h').down == Last(h).down
            && (m.Spi? ==> AllSpi(Last(h'))) && (m.Gpio? ==> AllGpio(Last(h')))
  {
    hide Safe;
    var p := Last(h);
    SafeChange(h, p.(clk := m));
    var h1 := Change(h, p.(clk := m));
    SafeChange(h1, Last(h1).(cs := m));
    var h2 := Change(h1, Last(h1).(cs := m));
    SafeChange(h2, Last(h2).(mi := m));
    var h3 := Change(h2, Last(h2).(mi := m));
    SafeChange(h3, Last(h3).(mo := m));
  }

  lemma OpenIsSafe(fails: int, h: Log)
    requires Safe(h) && fails >= SPI_END
    ensures var h' := OpenLog(fails, h);
            Safe(h') && AllSpi(Last(h')) && Last(h').down && Last(h').reset
  {
    hide Safe, MuxLog;
    var h1 := DownLog(fails, h, 1);
    SafeChange(h, Last(h).(down := true));
    var h2 := ResetLog(fails, h1, 0);
    SafeChange(h1, Last(h1).(reset := false));
    var h3 := SpiModeLog(fails, h2, 0);
    MuxIsSafe(h2, Gpio);
    var h4 := ResetLog(fails, h3, 1);
    SafeChange(h3, Last(h3).(reset := true));
    MuxIsSafe(h4, Spi);
  }

  lemma CloseIsSafe(fails: int, h: Log)
    requires Safe(h) && fails >= DOWN_END
    ensures var h' := CloseLog(fails, h);
            Safe(h') && SameMux(Last(h'), Last(h)) && !Last(h').down && !Last(h').reset
  {
    hide Safe;
    SafeChange(h, Last(h).(down := false));
    var h1 := DownLog(fails, h, 0);
    SafeChange(h1, Last(h1).(reset := false));
  }

  lemma TouchesCons(cs: seq<Ioctl>)
    requires cs != []
    ensures Touches(cs) <==> !cs[0].Command? || Touches(cs[1..])
    ensures Opens(cs) <==> cs[0].OpenDev? || Opens(cs[1..])
    ensures Transfers(cs) <==> (cs[0].Command? && cs[0].transfers > 0) || Transfers(cs[1..])
  {
    assert forall i :: 0 < i < |cs| ==> cs[i] == cs[1..][i - 1];
  }

  lemma {:induction false} RunIsSafe(fails: int, h: Log, cs: seq<Ioctl>)
    requires Safe(h) && AllSpi(Last(h)) && fails >= SPI_END
    ensures var h' := RunLog(fails, h, cs);
            && Safe(h') && AllSpi(Last(h'))
            && (Touches(cs) || Last(h).down == Last(h).reset ==> Last(h').down == Last(h').reset)
    decreases |cs|
  {
    hide Safe, OpenLog, CloseLog, TransferLog, Touches;
    if cs != [] {
      match cs[0] {
        case OpenDev => OpenIsSafe(fails, h);
        case CloseDev => CloseIsSafe(fails, h);
        case Command(n) => TransfersAreSafe(h, n);
      }
      RunIsSafe(fails, IoctlLog(fails, h, cs[0]), cs[1..]);
      TouchesCons(cs);
    } else {
      NothingTouches();
    }
  }

  lemma NothingTouches()
    ensures !Touches([]) && !Opens([]) && !Transfers([])
  {
  }

  lemma EveryRunIsLawful(fails: int, initial: PinState, cs: seq<Ioctl>)
    requires fails >= 12
    ensures Lawful(fails, initial, cs)
  {
    hide MuxLog, RunLog;
    MuxIsSafe([Set(initial)], Spi);
    RunIsSafe(fails, Probed(fails, initial), cs);
  }

  // ---------------------------------------------------------------- when a lookup failed

  predicate SameMux(p: PinState, q: PinState) {
    p.clk == q.clk && p.cs == q.cs && p.mi == q.mi && p.mo == q.mo
  }

  lemma {:induction false} TransferLogGrows(h: Log, n: nat)
    ensures h <= TransferLog(h, n)
    ensures n > 0 ==> |TransferLog(h, n)| > |h| && TransferLog(h, n)[|h|] == Transfer(Last(h))
    ensures Last(TransferLog(h, n)) == Last(h)
    decreases n
  {
    if n > 0 {
      TransferLogGrows(h + [Transfer(Last(h))], n - 1);
    }
  }

  lemma OpenLogGrows(fails: int, h: Log)
    ensures h <= OpenLog(fails, h)
  {
    hide ResetLog, DownLog, SpiModeLog;
    var h1 := DownLog(fails, h, 1);
    var h2 := ResetLog(fails, h1, 0);
    var h3 := SpiModeLog(fails, h2, 0);
    var h4 := ResetLog(fails, h3, 1);
    SetterLogsGrow(fails, h, 1);
    SetterLogsGrow(fails, h1, 0);
    SetterLogsGrow(fails, h2, 0);
    SetterLogsGrow(fails, h3, 1);
    SetterLogsGrow(fails, h4, 1);
  }

  lemma SetterLogsGrow(fails: int, h: Log, cmd: int)
    ensures h <= DownLog(fails, h, cmd) && h <= ResetLog(fails, h, cmd) && h <= SpiModeLog(fails, h, cmd)
  {
  }

  lemma {:induction false} RunLogGrows(fails: int, h: Log, cs: seq<Ioctl>)
    ensures h <= RunLog(fails, h, cs)
    decreases |cs|
  {
    hide OpenLog, CloseLog, TransferLog;
    if cs != [] {
      match cs[0] {
        case OpenDev => OpenLogGrows(fails, h);
        case CloseDev => CloseLogGrows(fails, h);
        case Command(n) => TransferLogGrows(h, n);
      }
      RunLogGrows(fails, IoctlLog(fails, h, cs[0]), cs[1..]);
    }
  }

  lemma CloseLogGrows(fails: int, h: Log)
    ensures h <= CloseLog(fails, h)
  {
    hide ResetLog, DownLog;
    SetterLogsGrow(fails, h, 0);
    SetterLogsGrow(fails, DownLog(fails, h, 0), 0);
  }

  lemma UnsafeStaysUnsafe(h: Log, longer: Log)
    requires h <= longer && !Safe(h)
    ensures !Safe(longer)
  {
    var i :| 0 < i < |h| && !SafeMoment(h[i - 1].pins, h[i]);
    assert longer[i - 1] == h[i - 1] && longer[i] == h[i];
  }

  /** Without the SPI pin states the pins stay as they were, while reset and power-down still move. */
  lemma OpenWithoutMux(fails: int, h: Log)
    requires Safe(h) && DOWN_END <= fails < SPI_END
    ensures var h' := OpenLog(fails, h);
            && (Safe(h') <==> AllGpio(Last(h)))
            && SameMux(Last(h'), Last(h)) && Last(h').down && Last(h').reset
  {
    hide Safe;
    var h1 := DownLog(fails, h, 1);
    SafeChange(h, Last(h).(down := true));
    var h2 := ResetLog(fails, h1, 0);
    SafeChange(h1, Last(h1).(reset := false));
    var q := Last(h2).(reset := true);
    assert OpenLog(fails, h) == Change(h2, q);
    if AllGpio(Last(h)) {
      SafeChange(h2, q);
    } else {
      UnsafeEnd(h2, Set(q));
    }
  }

  lemma UnsafeEnd(h: Log, m: Moment)
    requires !SafeMoment(Last(h), m)
    ensures !Safe(h + [m])
  {
    var h' := h + [m];
    assert h'[|h| - 1] == h[|h| - 1] && h'[|h|] == m;
    assert !SafeMoment(h'[|h| - 1].pins, h'[|h|]);
  }

  lemma TransfersWithoutMux(h: Log, n: nat)
    requires Safe(h)
    ensures Safe(TransferLog(h, n)) <==> (n > 0 ==> AllSpi(Last(h)))
    ensures Last(TransferLog(h, n)) == Last(h)
  {
    TransferLogGrows(h, n);
    if n > 0 {
      if AllSpi(Last(h)) {
        TransfersAreSafe(h, n);
      } else {
        UnsafeEnd(h, Transfer(Last(h)));
        UnsafeStaysUnsafe(h + [Transfer(Last(h))], TransferLog(h, n));
      }
    }
  }

  lemma {:induction false} RunWithoutMux(fails: int, h: Log, cs: seq<Ioctl>)
    requires Safe(h) && DOWN_END <= fails < SPI_END
    ensures var h' := RunLog(fails, h, cs);
            && (Safe(h') <==> (Opens(cs) ==> AllGpio(Last(h))) && (Transfers(cs) ==> AllSpi(Last(h))))
            && (Touches(cs) || Last(h).down == Last(h).reset ==> Last(h').down == Last(h').reset)
    decreases |cs|
  {
    hide Safe, OpenLog, CloseLog, TransferLog, Touches, Opens, Transfers;
    if cs == [] {
      NothingTouches();
    } else {
      var next := IoctlLog(fails, h, cs[0]);
      TouchesCons(cs);
      match cs[0] {
        case OpenDev => OpenWithoutMux(fails, h);
        case CloseDev => CloseIsSafe(fails, h);
        case Command(n) => TransfersWithoutMux(h, n);
      }
      if Safe(next) {
        RunWithoutMux(fails, next, cs[1..]);
      } else {
        RunLogGrows(fails, next, cs[1..]);
        DownFollowsReset(fails, next, cs[1..]);
        UnsafeStaysUnsafe(next, RunLog(fails, next, cs[1..]));
      }
    }
  }

  /** Power-down and reset agree after an OPEN or a CLOSE whatever became of the other pins. */
  lemma {:induction false} DownFollowsReset(fails: int, h: Log, cs: seq<Ioctl>)
    requires DOWN_END <= fails < SPI_END
    ensures var h' := RunLog(fails, h, cs);
            Touches(cs) || Last(h).down == Last(h).reset ==> Last(h').down == Last(h').reset
    decreases |cs|
  {
    hide TransferLog, Touches;
    if cs == [] {
      NothingTouches();
    } else {
      TouchesCons(cs);
      if cs[0].Command? {
        TransferLogGrows(h, cs[0].transfers);
      }
      DownFollowsReset(fails, IoctlLog(fails, h, cs[0]), cs[1..]);
    }
  }

  /** The exact condition, run by run. All lookups that the driver needs succeeded; or only an SPI one
      failed, and then OPEN needs pins that happened to be GPIO and a transfer pins that happened to be
      SPI, so no run has both; or an earlier one failed, and already the probe selects a null state, which
      the law itself forbids. */
  lemma LawfulIff(fails: int, initial: PinState, cs: seq<Ioctl>)
    ensures Lawful(fails, initial, cs) <==>
      || fails >= 12
      || (fails >= 4 && (Opens(cs) ==> AllGpio(initial)) && (Transfers(cs) ==> AllSpi(initial)))
  {
    if fails >= SPI_END {
      EveryRunIsLawful(fails, initial, cs);
    } else if fails >= DOWN_END {
      hide RunLog, Opens, Transfers, Touches;
      assert Probed(fails, initial) == [Set(initial)];
      RunWithoutMux(fails, [Set(initial)], cs);
    } else {
      var h := Probed(fails, initial);
      UnsafeEnd([Set(initial)], Fault(initial));
      RunLogGrows(fails, h, cs);
      UnsafeStaysUnsafe(h, RunLog(fails, h, cs));
    }
  }

  predicate UsesNull(h: Log) {
    exists i :: 0 <= i < |h| && h[i].Fault?
  }

  lemma SetterUsesNullIff(fails: int, h: Log, cmd: int)
    requires fails >= DOWN_END
    ensures UsesNull(DownLog(fails, h, cmd)) <==> UsesNull(h)
    ensures UsesNull(ResetLog(fails, h, cmd)) <==> UsesNull(h)
    ensures UsesNull(SpiModeLog(fails, h, cmd)) <==> UsesNull(h)
  {
    SetterLogsGrow(fails, h, cmd);
  }

  lemma {:induction false} TransfersUseNullIff(h: Log, n: nat)
    ensures UsesNull(TransferLog(h, n)) <==> UsesNull(h)
    decreases n
  {
    if n > 0 {
      var h' := h + [Transfer(Last(h))];
      assert UsesNull(h) ==> UsesNull(h') by {
        assert forall i :: 0 <= i < |h| ==> h'[i] == h[i];
      }
      TransfersUseNullIff(h', n - 1);
    }
  }

  lemma {:induction false} RunUsesNullIff(fails: int, h: Log, cs: seq<Ioctl>)
    requires fails >= DOWN_END
    ensures UsesNull(RunLog(fails, h, cs)) <==> UsesNull(h)
    decreases |cs|
  {
    hide ResetLog, DownLog, SpiModeLog, TransferLog, UsesNull;
    if cs != [] {
      match cs[0] {
        case OpenDev =>
          var h1 := DownLog(fails, h, 1);
          var h2 := ResetLog(fails, h1, 0);
          var h3 := SpiModeLog(fails, h2, 0);
          SetterUsesNullIff(fails, h, 1);
          SetterUsesNullIff(fails, h1, 0);
          SetterUsesNullIff(fails, h2, 0);
          SetterUsesNullIff(fails, h3, 1);
          SetterUsesNullIff(fails, ResetLog(fails, h3, 1), 1);
        case CloseDev =>
          SetterUsesNullIff(fails, h, 0);
          SetterUsesNullIff(fails, DownLog(fails, h, 0), 0);
        case Command(n) => TransfersUseNullIff(h, n);
      }
      RunUsesNullIff(fails, IoctlLog(fails, h, cs[0]), cs[1..]);
    }
  }

  /** Whatever one makes of it, a pin state that was never looked up is selected in a run if and only if
      a reset or power-down lookup failed or none was made; and then already by the probe. */
  lemma NullStateUsedIff(fails: int, initial: PinState, cs: seq<Ioctl>)
    ensures UsesNull(RunLog(fails, Probed(fails, initial), cs)) <==> fails < 4
    ensures UsesNull(Probed(fails, initial)) <==> fails < 4
  {
    var h := Probed(fails, initial);
    if fails < DOWN_END {
      assert h[1].Fault?;
      RunLogGrows(fails, h, cs);
      assert RunLog(fails, h, cs)[1] == h[1];
    } else {
      SetterUsesNullIff(fails, [Set(initial)], 1);
      assert !UsesNull([Set(initial)]);
      RunUsesNullIff(fails, h, cs);
    }
  }

  /** So the law holds for all runs and all initial pins exactly when every reset, power-down and SPI
      state was found: the silent error branch of `hct_security_set_spi_mode` breaks it. */
  lemma LawfulIffAllFound(fails: int)
    ensures (forall initial, cs :: Lawful(fails, initial, cs)) <==> fails >= 12
  {
    if fails >= SPI_END {
      forall initial, cs
        ensures Lawful(fails, initial, cs)
      {
        EveryRunIsLawful(fails, initial, cs);
      }
    } else {
      var parked := PinState(false, false, Gpio, Gpio, Gpio, Gpio);
      assert [Command(1)][0].Command? && [Command(1)][0].transfers > 0;
      assert Transfers([Command(1)]);
      LawfulIff(fails, parked, [Command(1)]);
    }
  }

  // ---------------------------------------------------------------- the driver's calls

  lemma {:induction false} RunLogSnoc(fails: int, h: Log, cs: seq<Ioctl>, c: Ioctl)
    ensures RunLog(fails, h, cs + [c]) == IoctlLog(fails, RunLog(fails, h, cs), c)
    decreases |cs|
  {
    hide IoctlLog;
    if cs == [] {
      assert cs + [c] == [c] && [c][1..] == [];
    } else {
      assert (cs + [c])[1..] == cs[1..] + [c];
      RunLogSnoc(fails, IoctlLog(fails, h, cs[0]), cs[1..], c);
    }
  }

  // ---------------------------------------------------------------- OPEN and CLOSE, change by change

  function Pins(reset: bool, down: bool, clk: Mux, cs: Mux, mi: Mux, mo: Mux): Moment {
    Set(PinState(reset, down, clk, cs, mi, mo))
  }

  /** Power-down high, reset low, the pins parked one by one, reset high, the pins back in SPI mode. */
  function OpenMoments(p: PinState): seq<Moment> {
    [Pins(p.reset, true, p.clk, p.cs, p.mi, p.mo),
     Pins(false, true, p.clk, p.cs, p.mi, p.mo),
     Pins(false, true, Gpio, p.cs, p.mi, p.mo),
     Pins(false, true, Gpio, Gpio, p.mi, p.mo),
     Pins(false, true, Gpio, Gpio, Gpio, p.mo),
     Pins(false, true, Gpio, Gpio, Gpio, Gpio),
     Pins(true, true, Gpio, Gpio, Gpio, Gpio),
     Pins(true, true, Spi, Gpio, Gpio, Gpio),
     Pins(true, true, Spi, Spi, Gpio, Gpio),
     Pins(true, true, Spi, Spi, Spi, Gpio),
     Pins(true, true, Spi, Spi, Spi, Spi)]
  }

  function OpenMomentsWithoutMux(p: PinState): seq<Moment> {
    [Pins(p.reset, true, p.clk, p.cs, p.mi, p.mo),
     Pins(false, true, p.clk, p.cs, p.mi, p.mo),
     Pins(true, true, p.clk, p.cs, p.mi, p.mo)]
  }

  /** Power-down low, and only then reset low. */
  function CloseMoments(p: PinState): seq<Moment> {
    [Pins(p.reset, false, p.clk, p.cs, p.mi, p.mo),
     Pins(false, false, p.clk, p.cs, p.mi, p.mo)]
  }

  lemma OpenInMoments(fails: int, h: Log)
    ensures fails >= 12 ==> OpenLog(fails, h) == h + OpenMoments(Last(h))
    ensures 4 <= fails < 12 ==> OpenLog(fails, h) == h + OpenMomentsWithoutMux(Last(h))
  {
    var p := Last(h);
    var h2 := ResetLog(fails, DownLog(fails, h, 1), 0);
    if fails >= 4 {
      assert h2 == h + OpenMoments(p)[..2];
    }
    if fails >= 12 {
      var h3 := MuxLog(h2, Gpio);
      assert h3 == h2 + OpenMoments(p)[2..6];
      var h4 := ResetLog(fails, h3, 1);
      assert h4 == h3 + OpenMoments(p)[6..7];
      assert MuxLog(h4, Spi) == h4 + OpenMoments(p)[7..];
    }
  }

  lemma CloseInMoments(fails: int, h: Log)
    ensures fails >= 4 ==> CloseLog(fails, h) == h + CloseMoments(Last(h))
  {
  }

  /** The pin globals, with the ioctls that led to them: the log is that of a run from the probe, so the
      results above hold for the object in every state. */
  class SecurityIc {
    var states: seq<Lookup>
    var reset: bool
    var down: bool
    var clk: Mux
    var cs: Mux
    var mi: Mux
    var mo: Mux
    ghost const fails: int
    ghost const initial: PinState
    ghost var log: seq<Moment>
    ghost var history: seq<Ioctl>

    ghost function Now(): PinState
      reads this
    {
      PinState(reset, down, clk, cs, mi, mo)
    }

    /** The pins are those of the last entry, the pointers those that the lookups left. */
    ghost predicate Synced()
      reads this
    {
      && log != [] && Last(log) == Now()
      && |states| == STATES && forall i :: 0 <= i < STATES ==> states[i] == LookupOf(fails, i)
    }

    ghost predicate Valid()
      reads this
    {
      Synced() && log == RunLog(fails, Probed(fails, initial), history)
    }

    /** The platform driver's lookups, then the muxing of `esp_probe`. */
    constructor (controller: bool, found: seq<bool>, initial: PinState)
      requires |found| == STATES
      ensures Valid() && history == [] && this.initial == initial
      ensures fails == if controller then FirstFailure(found) else -1
    {
      this.fails := if controller then FirstFailure(found) else -1;
      this.initial := initial;
      reset, down, clk, cs, mi, mo := initial.reset, initial.down, initial.clk, initial.cs, initial.mi, initial.mo;
      log, history := [Set(initial)], [];
      states := seq(STATES, _ => Unset);
      new;
      GetGpioInfo(controller, found);
      var _ := SetSpiMode(1);
    }

    /** `hct_security_get_gpio_info`: one lookup after the other, up to the first error. */
    method GetGpioInfo(controller: bool, found: seq<bool>)
      requires |found| == STATES == |states| && fails == if controller then FirstFailure(found) else -1
      requires forall i :: 0 <= i < STATES ==> states[i].Unset?
      modifies this`states
      ensures |states| == STATES && forall i :: 0 <= i < STATES ==> states[i] == LookupOf(fails, i)
    {
      if !controller {
        return;
      }
      for i := 0 to STATES
        invariant |states| == STATES && i <= fails
        invariant forall j :: 0 <= j < STATES ==> states[j] == if j < i then Got else Unset
      {
        if !found[i] {
          states := states[i := Error];
          return;
        }
        states := states[i := Got];
      }
    }

    /** Refuses silently exactly when one of its own two lookups failed. */
    method SetReset(cmd: int) returns (ret: int)
      requires Synced()
      modifies this`reset, this`log
      ensures Synced() && log == ResetLog(fails, old(log), cmd)
      ensures ret == if 0 <= fails < 2 then -1 else 0
    {
      if states[RESET_LOW].Error? || states[RESET_HIGH].Error? {
        return -1;
      }
      match cmd {
        case 0 =>
          if states[RESET_LOW].Got? { reset := false; }
          log := log + [if states[RESET_LOW].Got? then Set(Now()) else Fault(Now())];
        case 1 =>
          if states[RESET_HIGH].Got? { reset := true; }
          log := log + [if states[RESET_HIGH].Got? then Set(Now()) else Fault(Now())];
        case _ =>
      }
      return 0;
    }

    method SetDown(cmd: int) returns (ret: int)
      requires Synced()
      modifies this`down, this`log
      ensures Synced() && log == DownLog(fails, old(log), cmd)
      ensures ret == if 2 <= fails < 4 then -1 else 0
    {
      if states[DOWN_LOW].Error? || states[DOWN_HIGH].Error? {
        return -1;
      }
      match cmd {
        case 0 =>
          if states[DOWN_LOW].Got? { down := false; }
          log := log + [if states[DOWN_LOW].Got? then Set(Now()) else Fault(Now())];
        case 1 =>
          if states[DOWN_HIGH].Got? { down := true; }
          log := log + [if states[DOWN_HIGH].Got? then Set(Now()) else Fault(Now())];
        case _ =>
      }
      return 0;
    }

    method SetSpiMode(cmd: int) returns (ret: int)
      requires Synced()
      modifies this`clk, this`cs, this`mi, this`mo, this`log
      ensures Synced() && log == SpiModeLog(fails, old(log), cmd)
      ensures ret == if 4 <= fails < 12 then -1 else 0
    {
      if states[CLK_GPIO].Error? || states[CS_GPIO].Error? || states[MI_GPIO].Error? || states[MO_GPIO].Error?
         || states[CLK_SPI].Error? || states[CS_SPI].Error? || states[MI_SPI].Error? || states[MO_SPI].Error? {
        return -1;
      }
      match cmd {
        case 0 =>
          if states[CLK_GPIO].Unset? {
            log := log + [Fault(Now())];
            return 0;
          }
          clk := Gpio; log := log + [Set(Now())];
          cs := Gpio; log := log + [Set(Now())];
          mi := Gpio; log := log + [Set(Now())];
          mo := Gpio; log := log + [Set(Now())];
        case 1 =>
          if states[CLK_SPI].Unset? {
            log := log + [Fault(Now())];
            return 0;
          }
          clk := Spi; log := log + [Set(Now())];
          cs := Spi; log := log + [Set(Now())];
          mi := Spi; log := log + [Set(Now())];
          mo := Spi; log := log + [Set(Now())];
        case _ =>
      }
      return 0;
    }

    /** ESP_IOC_OPEN_DEV. */
    method Open() returns (ret: int)
      requires Valid()
      modifies this
      ensures Valid() && history == old(history) + [OpenDev] && ret == 0
      ensures fails >= 12 ==> Lawful(fails, initial, history) && reset && down && AllSpi(Now())
      ensures fails >= 12 ==> log == old(log) + OpenMoments(old(Now()))
      ensures 4 <= fails < 12 ==> log == old(log) + OpenMomentsWithoutMux(old(Now()))
    {
      OpenInMoments(fails, log);
      hide ResetLog, DownLog, SpiModeLog, RunLog, OpenMoments, OpenMomentsWithoutMux;
      RunLogSnoc(fails, Probed(fails, initial), history, OpenDev);
      var _ := SetDown(1);
      var _ := SetReset(0);
      var _ := SetSpiMode(0);
      var _ := SetReset(1);
      var _ := SetSpiMode(1);
      history := history + [OpenDev];
      ret := 0;
      if fails >= SPI_END {
        EveryRunIsLawful(fails, initial, old(history));
        OpenIsSafe(fails, old(log));
        EveryRunIsLawful(fails, initial, history);
      }
    }

    /** ESP_IOC_CLOSE_DEV. */
    method Close() returns (ret: int)
      requires Valid()
      modifies this
      ensures Valid() && history == old(history) + [CloseDev] && ret == 0
      ensures fails >= 12 ==> Lawful(fails, initial, history) && !reset && !down && AllSpi(Now())
      ensures fails >= 4 ==> log == old(log) + CloseMoments(old(Now()))
    {
      CloseInMoments(fails, log);
      hide ResetLog, DownLog, SpiModeLog, RunLog, CloseMoments;
      RunLogSnoc(fails, Probed(fails, initial), history, CloseDev);
      var _ := SetDown(0);
      var _ := SetReset(0);
      history := history + [CloseDev];
      ret := 0;
      if fails >= SPI_END {
        PinsInSpiMode(fails, initial, old(history));
        EveryRunIsLawful(fails, initial, old(history));
        CloseIsSafe(fails, old(log));
        EveryRunIsLawful(fails, initial, history);
      }
    }

    /** The SPI transfers of one command ioctl, as far as the pins are concerned. */
    ghost method TransferAll(n: nat)
      requires Valid()
      modifies this`log, this`history
      ensures Valid() && history == old(history) + [Command(n)]
      ensures fails >= SPI_END ==> Lawful(fails, initial, history) && AllSpi(Now())
    {
      RunLogSnoc(fails, Probed(fails, initial), history, Command(n));
      TransferLogGrows(log, n);
      log := TransferLog(log, n);
      history := history + [Command(n)];
      if fails >= SPI_END {
        PinsInSpiMode(fails, initial, history);
        EveryRunIsLawful(fails, initial, history);
      }
    }
  }

  lemma PinsInSpiMode(fails: int, initial: PinState, cs: seq<Ioctl>)
    requires fails >= SPI_END
    ensures AllSpi(Last(RunLog(fails, Probed(fails, initial), cs)))
  {
    hide MuxLog, RunLog;
    MuxIsSafe([Set(initial)], Spi);
    RunIsSafe(fails, Probed(fails, initial), cs);
  }
}
