/** `esp_probe` over any sequence of attempts, with the unwinding of its goto chain, and `esp_open`. */
module Probe {
  import opened Options

  const ENXIO := 6
  const ENOMEM := 12
  const EBUSY := 16
  const ENODEV := 19

  datatype Resource = DevMem | DrvData | Buffer | Class | Devno | Device | ListEntry | Sysfs | Cdev

  datatype Act = Take(r: Resource) | Give(r: Resource)

  /** What the attempts so far acquired and released, latest act outermost. */
  datatype Trail = Nothing | Did(before: Trail, act: Act)

  /** Resources held, in the order they were acquired. */
  datatype Stack = Empty | Push(rest: Stack, top: Resource)

  /** How the kernel calls of one attempt turn out, were they reached. `devno`, `sysfs` and `cdev` are
      return codes; `number` is the device number handed out. */
  datatype Outcome = Outcome(alloc: bool, buffer: bool, irq: bool, klass: bool, devno: int, number: int,
                             device: bool, sysfs: int, cdev: int)

  datatype Module = Module(
    probeIsOk: bool,
    espDev: Option<nat>,
    deviceList: seq<nat>,
    trail: Trail,               // acquisitions and releases, the interrupt aside
    irqHeld: bool,
    enables: nat,               // calls of `enable_irq` made by `esp_init_interrupt`
    attempts: nat,              // names the device allocated by the next attempt
    numbers: map<nat, int>)     // device numbers

  const INIT := Module(false, None, [], Nothing, false, 0, 0, map[])

  // ---------------------------------------------------------------- reading a trail

  /** The stack without its latest acquisition of r, wherever that stands. */
  function Without(s: Stack, r: Resource): Stack {
    match s
    case Empty => Empty
    case Push(rest, top) => if top == r then rest else Push(Without(rest, r), top)
  }

  /** What is held after a trail. */
  function Held(t: Trail): Stack {
    match t
    case Nothing => Empty
    case Did(before, Take(r)) => Push(Held(before), r)
    case Did(before, Give(r)) => Without(Held(before), r)
  }

  /** Every release took the latest acquisition still held. */
  predicate Reversed(t: Trail) {
    match t
    case Nothing => true
    case Did(before, Take(_)) => Reversed(before)
    case Did(before, Give(r)) => Reversed(before) && Held(before).Push? && Held(before).top == r
  }

  // ---------------------------------------------------------------- one attempt

  const ORDER := [DevMem, DrvData, Buffer, Class, Devno, Device, ListEntry, Sysfs, Cdev]

  /** The labels from bottom to top: what the block above each of them gives back. */
  const UNWIND := [DevMem, DrvData, Buffer, Class, Devno, ListEntry, Device, Sysfs]

  function Acquire(t: Trail, k: nat): Trail
    requires k <= |ORDER|
  {
    if k == 0 then t else Did(Acquire(t, k - 1), Take(ORDER[k - 1]))
  }

  function Release(t: Trail, k: nat): Trail
    requires k <= |UNWIND|
    decreases k
  {
    if k == 0 then t else Release(Did(t, Give(UNWIND[k - 1])), k - 1)
  }

  /** How many resources an attempt acquires. */
  function Reach(o: Outcome): (k: nat)
    ensures k <= |ORDER| && (k == |ORDER| <==> Succeeds(o))
  {
    if !o.alloc then 0
    else if !o.buffer then 2
    else if !o.klass then 3
    else if o.devno < 0 then 4
    else if !o.device then 5
    else if o.sysfs != 0 then 7
    else if o.cdev != 0 then 8
    else 9
  }

  function AttemptTrail(t: Trail, o: Outcome): Trail {
    if Succeeds(o) then Acquire(t, Reach(o)) else Release(Acquire(t, Reach(o)), Reach(o))
  }

  predicate ReachesIrq(o: Outcome) {
    o.alloc && o.buffer
  }

  predicate ReachesList(o: Outcome) {
    ReachesIrq(o) && o.klass && o.devno >= 0 && o.device
  }

  predicate Succeeds(o: Outcome) {
    ReachesList(o) && o.sysfs == 0 && o.cdev == 0
  }

  function Status(m: Module, o: Outcome): int {
    if m.probeIsOk then -1
    else if !ReachesIrq(o) then -ENOMEM
    else if !o.klass then -ENODEV
    else if o.devno < 0 then o.devno
    else if !o.device || o.sysfs != 0 then -ENODEV
    else o.cdev
  }

  /** The calls of an attempt in their order, each with the code that its failure returns. */
  function CallCodes(o: Outcome): seq<(bool, int)> {
    [(o.alloc, -12), (o.buffer, -12), (o.klass, -19), (o.devno >= 0, o.devno), (o.device, -19),
     (o.sysfs == 0, -19), (o.cdev == 0, o.cdev)]
  }

  function FirstCode(calls: seq<(bool, int)>): int {
    if calls == [] then 0 else if !calls[0].0 then calls[0].1 else FirstCode(calls[1..])
  }

  /** 0, or the code of the first call that failed. */
  function FirstFailure(o: Outcome): int {
    FirstCode(CallCodes(o))
  }

  lemma StatusIsFirstFailure(m: Module, o: Outcome)
    ensures !m.probeIsOk ==> Status(m, o) == FirstFailure(o)
    ensures m.probeIsOk ==> Status(m, o) == -1
    ensures Status(m, o) == 0 <==> !m.probeIsOk && Succeeds(o)
  {
    var c := CallCodes(o);
    assert FirstCode(c) == if !c[0].0 then c[0].1 else FirstCode(c[1..]);
    var c1 := c[1..];
    assert FirstCode(c1) == if !c[1].0 then c[1].1 else FirstCode(c1[1..]);
    var c2 := c1[1..];
    assert FirstCode(c2) == if !c[2].0 then c[2].1 else FirstCode(c2[1..]);
    var c3 := c2[1..];
    assert FirstCode(c3) == if !c[3].0 then c[3].1 else FirstCode(c3[1..]);
    var c4 := c3[1..];
    assert FirstCode(c4) == if !c[4].0 then c[4].1 else FirstCode(c4[1..]);
    var c5 := c4[1..];
    assert FirstCode(c5) == if !c[5].0 then c[5].1 else FirstCode(c5[1..]);
    var c6 := c5[1..];
    assert FirstCode(c6) == if !c[6].0 then c[6].1 else FirstCode(c6[1..]);
    assert c6[1..] == [];
  }

  /** What a first attempt changes, call by call. */
  predicate Brought(before: Module, o: Outcome, m: Module) {
    var up := o.alloc && o.buffer && o.klass && o.devno >= 0 && o.device && o.sysfs == 0 && o.cdev == 0;
    && m.probeIsOk == up
    && m.attempts == before.attempts + 1
    && m.espDev == (if up then Some(before.attempts) else None)
    && m.deviceList == (if up then [before.attempts] + before.deviceList else before.deviceList)
    && m.irqHeld == (before.irqHeld || (o.alloc && o.buffer && o.irq))
    && m.enables == before.enables + (if o.alloc && o.buffer then 1 else 0)
    && (up ==> before.attempts in m.numbers && m.numbers[before.attempts] == o.number)
    && Acts(m.trail) == Acts(before.trail) + ActsOf(o)
  }

  function Acts(t: Trail): seq<Act> {
    match t
    case Nothing => []
    case Did(before, act) => Acts(before) + [act]
  }

  /** What an attempt acquires and releases, written out for each place where it can end. */
  function ActsOf(o: Outcome): seq<Act> {
    if !o.alloc then []
    else if !o.buffer then
      [Take(DevMem), Take(DrvData), Give(DrvData), Give(DevMem)]
    else if !o.klass then
      [Take(DevMem), Take(DrvData), Take(Buffer), Give(Buffer), Give(DrvData), Give(DevMem)]
    else if o.devno < 0 then
      [Take(DevMem), Take(DrvData), Take(Buffer), Take(Class), Give(Class), Give(Buffer), Give(DrvData),
       Give(DevMem)]
    else if !o.device then
      [Take(DevMem), Take(DrvData), Take(Buffer), Take(Class), Take(Devno), Give(Devno), Give(Class),
       Give(Buffer), Give(DrvData), Give(DevMem)]
    else if o.sysfs != 0 then
      [Take(DevMem), Take(DrvData), Take(Buffer), Take(Class), Take(Devno), Take(Device), Take(ListEntry),
       Give(Device), Give(ListEntry), Give(Devno), Give(Class), Give(Buffer), Give(DrvData), Give(DevMem)]
    else if o.cdev != 0 then
      [Take(DevMem), Take(DrvData), Take(Buffer), Take(Class), Take(Devno), Take(Device), Take(ListEntry),
       Take(Sysfs), Give(Sysfs), Give(Device), Give(ListEntry), Give(Devno), Give(Class), Give(Buffer),
       Give(DrvData), Give(DevMem)]
    else
      [Take(DevMem), Take(DrvData), Take(Buffer), Take(Class), Take(Devno), Take(Device), Take(ListEntry),
       Take(Sysfs), Take(Cdev)]
  }

  function Takes(k: nat): seq<Act>
    requires k <= |ORDER|
  {
    seq(k, i requires 0 <= i < k => Take(ORDER[i]))
  }

  function Gives(k: nat): seq<Act>
    requires k <= |UNWIND|
  {
    seq(k, i requires 0 <= i < k => Give(UNWIND[k - 1 - i]))
  }

  lemma {:induction false} ActsOfAcquire(t: Trail, k: nat)
    requires k <= |ORDER|
    ensures Acts(Acquire(t, k)) == Acts(t) + Takes(k)
  {
    if k == 0 {
      assert Acts(t) + Takes(0) == Acts(t);
    } else {
      ActsOfAcquire(t, k - 1);
      assert Takes(k) == Takes(k - 1) + [Take(ORDER[k - 1])];
      assert Acts(t) + Takes(k) == (Acts(t) + Takes(k - 1)) + [Take(ORDER[k - 1])];
    }
  }

  lemma {:induction false} ActsOfRelease(t: Trail, k: nat)
    requires k <= |UNWIND|
    ensures Acts(Release(t, k)) == Acts(t) + Gives(k)
    decreases k
  {
    if k == 0 {
      assert Acts(t) + Gives(0) == Acts(t);
    } else {
      var act := Give(UNWIND[k - 1]);
      ActsOfRelease(Did(t, act), k - 1);
      assert Gives(k) == [act] + Gives(k - 1);
      assert Acts(t) + Gives(k) == (Acts(t) + [act]) + Gives(k - 1);
    }
  }

  lemma ActsOfAttempt(t: Trail, o: Outcome)
    ensures Acts(AttemptTrail(t, o)) == Acts(t) + ActsOf(o)
  {
    var k := Reach(o);
    ActsOfAcquire(t, k);
    WrittenOut(o);
    if k < |ORDER| {
      ActsOfRelease(Acquire(t, k), k);
      assert Acts(t) + (Takes(k) + Gives(k)) == (Acts(t) + Takes(k)) + Gives(k);
    }
  }

  lemma WrittenOut(o: Outcome)
    ensures var k := Reach(o); ActsOf(o) == if k == |ORDER| then Takes(k) else Takes(k) + Gives(k)
  {
    var k := Reach(o);
    var acts := if k == |ORDER| then Takes(k) else Takes(k) + Gives(k);
    assert |ActsOf(o)| == |acts|;
    assert forall i :: 0 <= i < |acts| ==> ActsOf(o)[i] == acts[i];
  }

  lemma AfterBrings(m: Module, o: Outcome)
    ensures !m.probeIsOk ==> Brought(m, o, After(m, o))
    ensures m.probeIsOk ==> After(m, o) == m
  {
    hide AttemptTrail, ActsOf, Acts;
    ActsOfAttempt(m.trail, o);
  }

  /** What an attempt does to the module: nothing after a success; a success takes everything; a failure
      gives back all it took, but leaves the interrupt requested. */
  function After(m: Module, o: Outcome): Module {
    if m.probeIsOk then m
    else
      Module(Succeeds(o),
             if Succeeds(o) then Some(m.attempts) else None,
             if Succeeds(o) then [m.attempts] + m.deviceList else m.deviceList,
             AttemptTrail(m.trail, o),
             m.irqHeld || (ReachesIrq(o) && o.irq),
             m.enables + if ReachesIrq(o) then 1 else 0,
             m.attempts + 1,
             if ReachesIrq(o) && o.klass && o.devno >= 0 then m.numbers[m.attempts := o.number] else m.numbers)
  }

  function Run(m: Module, os: seq<Outcome>): Module
    decreases |os|
  {
    if os == [] then m else Run(After(m, os[0]), os[1..])
  }

  lemma {:induction false} RunSnoc(m: Module, os: seq<Outcome>, o: Outcome)
    ensures Run(m, os + [o]) == After(Run(m, os), o)
    decreases |os|
  {
    hide After;
    if os == [] {
      assert os + [o] == [o] && [o][1..] == [];
    } else {
      assert (os + [o])[1..] == os[1..] + [o];
      RunSnoc(After(m, os[0]), os[1..], o);
    }
  }

  // ---------------------------------------------------------------- the nested blocks of the unwinding

  /** Acts of an attempt that created its device, from the device on. */
  function Listing(t: Trail, o: Outcome): Trail {
    var t2 := Did(Did(t, Take(Device)), Take(ListEntry));
    if o.sysfs == 0 && o.cdev == 0 then Did(Did(t2, Take(Sysfs)), Take(Cdev))
    else
      var t3 := if o.sysfs == 0 then Did(Did(t2, Take(Sysfs)), Give(Sysfs)) else t2;
      Did(Did(t3, Give(Device)), Give(ListEntry))
  }

  /** Acts of an attempt that requested the interrupt, from there on. */
  function Registration(t: Trail, o: Outcome): Trail {
    if !o.klass then t
    else if o.devno < 0 then Did(Did(t, Take(Class)), Give(Class))
    else
      var t2 := Did(Did(t, Take(Class)), Take(Devno));
      if !o.device then Did(Did(t2, Give(Devno)), Give(Class))
      else if Succeeds(o.(alloc := true, buffer := true)) then Listing(t2, o)
      else Did(Did(Listing(t2, o), Give(Devno)), Give(Class))
  }

  /** The nested blocks perform the acquisitions in order and the releases from the label reached. */
  lemma AttemptTrails(t: Trail, o: Outcome)
    ensures !o.alloc ==> AttemptTrail(t, o) == t
    ensures o.alloc && !o.buffer ==>
      AttemptTrail(t, o) == Did(Did(Did(Did(t, Take(DevMem)), Take(DrvData)), Give(DrvData)), Give(DevMem))
    ensures ReachesIrq(o) ==>
      var r := Registration(Did(Did(Did(t, Take(DevMem)), Take(DrvData)), Take(Buffer)), o);
      AttemptTrail(t, o) == if Succeeds(o) then r else Did(Did(Did(r, Give(Buffer)), Give(DrvData)), Give(DevMem))
  {
    assert Reach(o) == 0 || Reach(o) == 2 || Reach(o) == 3 || Reach(o) == 4 || Reach(o) == 5
           || Reach(o) == 7 || Reach(o) == 8 || Reach(o) == 9;
    AcquireAll(t);
    ReleaseAll(Acquire(t, Reach(o)));
  }

  lemma AcquireAll(t: Trail)
    ensures Acquire(t, 0) == t
    ensures Acquire(t, 2) == Did(Did(t, Take(DevMem)), Take(DrvData))
    ensures Acquire(t, 3) == Did(Acquire(t, 2), Take(Buffer))
    ensures Acquire(t, 4) == Did(Acquire(t, 3), Take(Class))
    ensures Acquire(t, 5) == Did(Acquire(t, 4), Take(Devno))
    ensures Acquire(t, 7) == Did(Did(Acquire(t, 5), Take(Device)), Take(ListEntry))
    ensures Acquire(t, 8) == Did(Acquire(t, 7), Take(Sysfs))
    ensures Acquire(t, 9) == Did(Acquire(t, 8), Take(Cdev))
  {
    assert Acquire(t, 1) == Did(t, Take(DevMem));
    assert Acquire(t, 6) == Did(Acquire(t, 5), Take(Device));
  }

  lemma ReleaseAll(t: Trail)
    ensures Release(t, 0) == t
    ensures Release(t, 2) == Did(Did(t, Give(DrvData)), Give(DevMem))
    ensures Release(t, 3) == Release(Did(t, Give(Buffer)), 2)
    ensures Release(t, 4) == Release(Did(t, Give(Class)), 3)
    ensures Release(t, 5) == Release(Did(t, Give(Devno)), 4)
    ensures Release(t, 7) == Release(Did(Did(t, Give(Device)), Give(ListEntry)), 5)
    ensures Release(t, 8) == Release(Did(t, Give(Sysfs)), 7)
  {
    assert Release(Did(t, Give(DrvData)), 1) == Did(Did(t, Give(DrvData)), Give(DevMem));
    assert Release(t, 7) == Release(Did(t, Give(Device)), 6);
  }

  // ---------------------------------------------------------------- the driver's calls

  class EspModule {
    var probeIsOk: bool
    var espDev: Option<nat>
    var deviceList: seq<nat>
    ghost var trail: Trail
    var irqHeld: bool
    ghost var enables: nat
    var attempts: nat
    var numbers: map<nat, int>
    ghost var history: seq<Outcome>

    ghost function Now(): Module
      reads this
    {
      Module(probeIsOk, espDev, deviceList, trail, irqHeld, enables, attempts, numbers)
    }

    /** The module is where its attempts so far lead. */
    ghost predicate Valid()
      reads this
    {
      Now() == Run(INIT, history)
    }

    constructor ()
      ensures Valid() && history == [] && Now() == INIT
    {
      history := [];
      probeIsOk, espDev, deviceList, trail := false, None, [], Nothing;
      irqHeld, enables, attempts, numbers := false, 0, 0, map[];
    }

    /** `esp_init_interrupt`: the line is not shared, so a request while it is held is refused whatever
        the kernel would have said; the caller ignores the result, and `enable_irq` is called in any case. */
    method EspInitInterrupt(granted: bool) returns (ret: int)
      modifies this`irqHeld, this`enables
      ensures ret == 0 <==> granted && !old(irqHeld)
      ensures old(irqHeld) ==> ret == -16
      ensures irqHeld <==> old(irqHeld) || ret == 0
      ensures enables == old(enables) + 1
    {
      ret := if irqHeld then -EBUSY else if granted then 0 else -ENXIO;
      if ret == 0 {
        irqHeld := true;
      }
      enables := enables + 1;
    }

    /** One attempt. It returns 0 exactly when it brings the module up; -1 after an earlier success; and
        otherwise the code of the first call that failed. */
    method EspProbe(o: Outcome) returns (status: int)
      requires Valid()
      modifies this
      ensures Valid() && history == old(history) + [o]
      ensures Now() == After(old(Now()), o)
      ensures status == 0 <==> !old(probeIsOk) && probeIsOk
      ensures old(probeIsOk) ==> status == -1 && Now() == old(Now())
      ensures !old(probeIsOk) ==> status == FirstFailure(o) && Brought(old(Now()), o, Now())
    {
      hide Run, AttemptTrail;
      AfterBrings(Now(), o);
      StatusIsFirstFailure(Now(), o);
      RunSnoc(INIT, history, o);
      history := history + [o];
      if probeIsOk {
        return -1;
      }
      status := ProbeFresh(o);
    }

    /** Behind the first test of `esp_probe`; each labelled block ends where the C label of that name
        stands. */
    method ProbeFresh(o: Outcome) returns (status: int)
      requires !probeIsOk
      modifies this`probeIsOk, this`espDev, this`deviceList, this`trail, this`irqHeld, this`enables
      modifies this`attempts, this`numbers
      ensures Now() == After(old(Now()), o)
      ensures status == Status(old(Now()), o)
    {
      hide AttemptTrail, Reach, Registration;
      AttemptTrails(trail, o);
      var id := attempts;
      attempts := attempts + 1;
      if !o.alloc {
        espDev := None;
        return -ENOMEM;
      }
      espDev := Some(id);
      trail := Did(trail, Take(DevMem));
      trail := Did(trail, Take(DrvData));
      label errBuf: {
        if !o.buffer {
          status := -ENOMEM;
          break errBuf;
        }
        trail := Did(trail, Take(Buffer));
        var _ := EspInitInterrupt(o.irq);
        status := RegisterDevice(o, id);
        if status == 0 {
          return 0;
        }
        trail := Did(trail, Give(Buffer));
      }
      trail := Did(trail, Give(DrvData));
      espDev := None;
      trail := Did(trail, Give(DevMem));
    }

    /** `esp_probe` from `class_create` down to the label that destroys the class again. */
    method RegisterDevice(o: Outcome, id: nat) returns (status: int)
      requires ReachesIrq(o) && !probeIsOk
      modifies this`probeIsOk, this`deviceList, this`numbers, this`trail
      ensures status == if !o.klass then -ENODEV else if o.devno < 0 then o.devno
                        else if !o.device || o.sysfs != 0 then -ENODEV else o.cdev
      ensures probeIsOk == Succeeds(o)
      ensures numbers == if o.klass && o.devno >= 0 then old(numbers)[id := o.number] else old(numbers)
      ensures deviceList == if Succeeds(o) then [id] + old(deviceList) else old(deviceList)
      ensures trail == Registration(old(trail), o)
    {
      label errClass: {
        if !o.klass {
          status := -ENODEV;
          break errClass;
        }
        trail := Did(trail, Take(Class));
        label errDevno: {
          status := o.devno;
          if status < 0 {
            break errDevno;
          }
          numbers := numbers[id := o.number];
          trail := Did(trail, Take(Devno));
          label errDevice: {
            if !o.device {
              status := -ENODEV;
              break errDevice;
            }
            status := ListDevice(o, id);
            if status == 0 {
              return;
            }
          }
          trail := Did(trail, Give(Devno));
        }
        trail := Did(trail, Give(Class));
      }
    }

    /** From `device_create` down to the label that destroys the device again. */
    method ListDevice(o: Outcome, id: nat) returns (status: int)
      requires ReachesList(o) && !probeIsOk
      modifies this`probeIsOk, this`deviceList, this`trail
      ensures status == if o.sysfs != 0 then -ENODEV else o.cdev
      ensures probeIsOk == Succeeds(o)
      ensures deviceList == if Succeeds(o) then [id] + old(deviceList) else old(deviceList)
      ensures trail == Listing(old(trail), o)
    {
      trail := Did(trail, Take(Device));
      deviceList := [id] + deviceList;
      trail := Did(trail, Take(ListEntry));
      label errSysfs: {
        status := o.sysfs;
        if status != 0 {
          status := -ENODEV;
          break errSysfs;
        }
        trail := Did(trail, Take(Sysfs));
        label errCdev: {
          status := o.cdev;
          if status != 0 {
            break errCdev;
          }
          trail := Did(trail, Take(Cdev));
          probeIsOk := true;
          return;
        }
        trail := Did(trail, Give(Sysfs));
      }
      trail := Did(trail, Give(Device));
      deviceList := deviceList[1..];
      trail := Did(trail, Give(ListEntry));
    }

    /** `esp_open`: the first listed device with the inode's number. */
    method EspOpen(rdev: int) returns (status: int, dev: Option<nat>)
      requires Valid()
      ensures status == 0 || status == -6
      ensures var es := Effective(history);
        status == 0 <==> es != [] && Succeeds(es[|es| - 1]) && es[|es| - 1].number == rdev
      ensures status == 0 <==>
        probeIsOk && espDev.Some? && espDev.value in numbers && numbers[espDev.value] == rdev
      ensures dev == if status == 0 then espDev else None
    {
      RunKeepsListed(INIT, history);
      AnyProbeRun(history);
      status, dev := -ENXIO, None;
      for i := 0 to |deviceList|
        invariant status == -ENXIO && dev.None? && Listed(Now())
        invariant forall j :: 0 <= j < i ==> numbers[deviceList[j]] != rdev
      {
        if numbers[deviceList[i]] == rdev {
          assert deviceList[i] in deviceList;
          return 0, Some(deviceList[i]);
        }
      }
      if probeIsOk {
        assert deviceList[0] == espDev.value;
      }
    }
  }

  // ---------------------------------------------------------------- whole runs

  /** The first k resources in the order of acquisition, on top of s. */
  function Pushed(s: Stack, k: nat): Stack
    requires k <= |ORDER|
  {
    if k == 0 then s else Push(Pushed(s, k - 1), ORDER[k - 1])
  }

  lemma {:induction false} HeldAcquire(t: Trail, k: nat)
    requires k <= |ORDER|
    ensures Held(Acquire(t, k)) == Pushed(Held(t), k)
    ensures Reversed(Acquire(t, k)) <==> Reversed(t)
  {
    if k > 0 {
      HeldAcquire(t, k - 1);
    }
  }

  /** Below the device, the labels give back in reverse order of acquisition. */
  lemma {:induction false} HeldRelease(t: Trail, s: Stack, k: nat)
    requires k <= 5 && Held(t) == Pushed(s, k)
    ensures Held(Release(t, k)) == s
    ensures Reversed(Release(t, k)) <==> Reversed(t)
    decreases k
  {
    if k > 0 {
      assert UNWIND[k - 1] == ORDER[k - 1];
      HeldRelease(Did(t, Give(UNWIND[k - 1])), s, k - 1);
    }
  }

  /** From the device on they do not: the list entry is on top when the device is given back. */
  lemma HeldReleaseListed(t: Trail, s: Stack, k: nat)
    requires (k == 7 || k == 8) && Held(t) == Pushed(s, k)
    ensures Held(Release(t, k)) == s && !Reversed(Release(t, k))
    decreases k
  {
    ReleaseAll(t);
    if k == 8 {
      assert Pushed(s, 8) == Push(Pushed(s, 7), Sysfs);
      HeldReleaseListed(Did(t, Give(Sysfs)), s, 7);
    } else {
      assert Pushed(s, 7) == Push(Push(Pushed(s, 5), Device), ListEntry) by {
        assert Pushed(s, 6) == Push(Pushed(s, 5), Device);
      }
      var t' := Did(Did(t, Give(Device)), Give(ListEntry));
      assert Without(Push(Pushed(s, 5), Device), Device) == Pushed(s, 5);
      assert Held(Did(t, Give(Device))) == Push(Pushed(s, 5), ListEntry);
      HeldRelease(t', s, 5);
    }
  }

  /** An attempt leaves all nine resources held or none, and its releases are in reverse order unless
      it fails after its device was listed. */
  lemma AttemptLeaves(t: Trail, o: Outcome)
    ensures Held(AttemptTrail(t, o)) == if Succeeds(o) then Pushed(Held(t), |ORDER|) else Held(t)
    ensures Reversed(AttemptTrail(t, o)) <==> Reversed(t) && !FailsListed(o)
  {
    hide Acquire, Release, Pushed, Held, Reversed;
    var k := Reach(o);
    HeldAcquire(t, k);
    if k == 7 || k == 8 {
      HeldReleaseListed(Acquire(t, k), Held(t), k);
    } else if k < 7 {
      HeldRelease(Acquire(t, k), Held(t), k);
    }
  }

  /** Such an attempt, carried out: the device node is gone before its list entry, and in the end
      nothing is held but the interrupt. */
  method FailAfterListing(o: Outcome) returns (m: EspModule, status: int)
    requires FailsListed(o)
    ensures fresh(m) && m.Valid() && m.history == [o] && status != 0
    ensures !Reversed(m.trail) && Held(m.trail) == Empty
    ensures m.deviceList == [] && m.espDev == None && m.irqHeld == o.irq
  {
    m := new EspModule();
    AttemptLeaves(m.trail, o);
    status := m.EspProbe(o);
    hide AttemptTrail, Reversed, Held;
  }

  /** The list holds exactly the device of the successful attempt, and nothing is held without one. */
  predicate Listed(m: Module) {
    && (m.probeIsOk ==> m.espDev.Some? && m.deviceList == [m.espDev.value] && m.espDev.value in m.numbers
                        && Held(m.trail) == Pushed(Empty, |ORDER|))
    && (!m.probeIsOk ==> m.espDev.None? && m.deviceList == [] && Held(m.trail) == Empty)
  }

  /** The attempts before the first success, and that success. */
  function Effective(os: seq<Outcome>): seq<Outcome> {
    if os == [] then []
    else if Succeeds(os[0]) then [os[0]]
    else [os[0]] + Effective(os[1..])
  }

  lemma {:induction false} NothingAfterSuccess(m: Module, os: seq<Outcome>)
    requires m.probeIsOk
    ensures Run(m, os) == m
    decreases |os|
  {
    if os != [] {
      NothingAfterSuccess(m, os[1..]);
    }
  }

  /** Attempts after the first success change nothing. */
  lemma {:induction false} OnlyEffectiveAttemptsCount(m: Module, os: seq<Outcome>)
    requires !m.probeIsOk
    ensures Run(m, os) == Run(m, Effective(os))
    decreases |os|
  {
    if os != [] {
      if Succeeds(os[0]) {
        NothingAfterSuccess(After(m, os[0]), os[1..]);
        assert [os[0]][1..] == [];
      } else {
        OnlyEffectiveAttemptsCount(After(m, os[0]), os[1..]);
        assert Effective(os)[1..] == Effective(os[1..]);
      }
    }
  }

  lemma {:induction false} RunKeepsListed(m: Module, os: seq<Outcome>)
    requires Listed(m)
    ensures Listed(Run(m, os))
    decreases |os|
  {
    hide AttemptTrail, Held, Pushed;
    if os != [] {
      AttemptLeaves(m.trail, os[0]);
      RunKeepsListed(After(m, os[0]), os[1..]);
    }
  }

  function CountIf(os: seq<Outcome>, p: Outcome -> bool): nat {
    if os == [] then 0 else (if p(os[0]) then 1 else 0) + CountIf(os[1..], p)
  }

  lemma {:induction false} RunCounts(m: Module, os: seq<Outcome>)
    requires !m.probeIsOk && Effective(os) == os
    ensures var z := Run(m, os);
            && z.enables == m.enables + CountIf(os, ReachesIrq)
            && z.attempts == m.attempts + |os|
            && (z.probeIsOk ==> z.espDev == Some(z.attempts - 1))
            && (z.probeIsOk <==> SomeOutcome(os, Succeeds))
            && (z.irqHeld <==> m.irqHeld || SomeOutcome(os, GrantsIrq))
            && (Reversed(z.trail) <==> Reversed(m.trail) && !SomeOutcome(os, FailsListed))
    decreases |os|
  {
    hide Succeeds, ReachesIrq, ReachesList, GrantsIrq, FailsListed, SomeOutcome, Reversed, After, Effective;
    if os != [] {
      SomeOutcomeCons(os, Succeeds);
      SomeOutcomeCons(os, GrantsIrq);
      SomeOutcomeCons(os, FailsListed);
      AfterFlags(m, os[0]);
      EffectiveTail(os);
      if Succeeds(os[0]) {
        NoOutcome(Succeeds);
        NoOutcome(GrantsIrq);
        NoOutcome(FailsListed);
      } else {
        RunCounts(After(m, os[0]), os[1..]);
      }
    } else {
      NoOutcome(Succeeds);
      NoOutcome(GrantsIrq);
      NoOutcome(FailsListed);
    }
  }

  lemma EffectiveTail(os: seq<Outcome>)
    requires os != [] && Effective(os) == os
    ensures if Succeeds(os[0]) then os[1..] == [] else Effective(os[1..]) == os[1..]
  {
    hide Succeeds;
  }

  /** The effective attempts end in the success, if there is one. */
  lemma {:induction false} EffectiveEnds(os: seq<Outcome>)
    ensures var es := Effective(os); SomeOutcome(os, Succeeds) <==> es != [] && Succeeds(es[|es| - 1])
  {
    hide Succeeds, SomeOutcome;
    if os == [] {
      NoOutcome(Succeeds);
    } else {
      SomeOutcomeCons(os, Succeeds);
      EffectiveEnds(os[1..]);
    }
  }

  /** The device that is up has the number that the kernel handed out in its own attempt. */
  lemma {:induction false} LastNumberCounts(m: Module, os: seq<Outcome>)
    requires !m.probeIsOk && Effective(os) == os && Run(m, os).probeIsOk
    ensures var z := Run(m, os);
            && os != [] && z.attempts > 0 && z.attempts - 1 in z.numbers
            && z.numbers[z.attempts - 1] == os[|os| - 1].number
    decreases |os|
  {
    hide Succeeds, After, Effective;
    EffectiveTail(os);
    AfterFlags(m, os[0]);
    if Succeeds(os[0]) {
      NumberOfBrought(m, os[0]);
    } else {
      LastNumberCounts(After(m, os[0]), os[1..]);
    }
  }

  lemma NumberOfBrought(m: Module, o: Outcome)
    requires !m.probeIsOk && Succeeds(o)
    ensures var z := After(m, o); m.attempts in z.numbers && z.numbers[m.attempts] == o.number
  {
    hide AttemptTrail;
  }

  predicate GrantsIrq(o: Outcome) {
    ReachesIrq(o) && o.irq
  }

  predicate FailsListed(o: Outcome) {
    ReachesList(o) && !Succeeds(o)
  }

  predicate SomeOutcome(os: seq<Outcome>, p: Outcome -> bool) {
    exists i :: 0 <= i < |os| && p(os[i])
  }

  lemma NoOutcome(p: Outcome -> bool)
    ensures !SomeOutcome([], p)
  {
  }

  lemma SomeOutcomeCons(os: seq<Outcome>, p: Outcome -> bool)
    requires os != []
    ensures SomeOutcome(os, p) <==> p(os[0]) || SomeOutcome(os[1..], p)
  {
    if i :| 0 <= i < |os| && p(os[i]) && i > 0 {
      assert os[1..][i - 1] == os[i];
    }
    if j :| 0 <= j < |os[1..]| && p(os[1..][j]) {
      assert os[j + 1] == os[1..][j];
    }
  }

  lemma AfterFlags(m: Module, o: Outcome)
    requires !m.probeIsOk
    ensures var z := After(m, o);
            && z.probeIsOk == Succeeds(o)
            && z.attempts == m.attempts + 1
            && (z.probeIsOk ==> z.espDev == Some(m.attempts))
            && z.enables == m.enables + (if ReachesIrq(o) then 1 else 0)
            && z.irqHeld == (m.irqHeld || GrantsIrq(o))
            && (Reversed(z.trail) <==> Reversed(m.trail) && !FailsListed(o))
  {
    hide AttemptTrail, Reversed;
    AttemptLeaves(m.trail, o);
  }

  lemma {:induction false} EffectiveIsEffective(os: seq<Outcome>)
    ensures Effective(Effective(os)) == Effective(os)
    ensures SomeOutcome(Effective(os), Succeeds) <==> SomeOutcome(os, Succeeds)
  {
    hide Succeeds, SomeOutcome;
    if os != [] {
      var es := Effective(os);
      SomeOutcomeCons(os, Succeeds);
      SomeOutcomeCons(es, Succeeds);
      if !Succeeds(os[0]) {
        EffectiveIsEffective(os[1..]);
        assert es[1..] == Effective(os[1..]);
      }
    }
  }

  /** Any sequence of probe attempts, whatever fails: the module is up exactly when some attempt could
      succeed, with that attempt's device alone on the list and everything it took held; otherwise
      nothing is held. Either way the interrupt, once requested, stays requested, and every attempt that
      got that far called `enable_irq` once more. */
  lemma AnyProbeRun(os: seq<Outcome>)
    ensures var z, es := Run(INIT, os), Effective(os);
            && Listed(z)
            && (z.probeIsOk <==> SomeOutcome(os, Succeeds))
            && (z.probeIsOk <==> es != [] && Succeeds(es[|es| - 1]))
            && (z.probeIsOk ==> z.espDev == Some(|es| - 1))
            && (z.probeIsOk ==> |es| - 1 in z.numbers && z.numbers[|es| - 1] == es[|es| - 1].number)
            && (z.irqHeld <==> SomeOutcome(es, GrantsIrq))
            && z.enables == CountIf(es, ReachesIrq)
  {
    OnlyEffectiveAttemptsCount(INIT, os);
    EffectiveIsEffective(os);
    RunKeepsListed(INIT, os);
    RunCounts(INIT, Effective(os));
    EffectiveEnds(os);
    if Run(INIT, os).probeIsOk {
      LastNumberCounts(INIT, Effective(os));
    }
  }

  /** The unwinding is in reverse order of acquisition exactly when no attempt fails after its device
      was listed: from there on the device node is destroyed before its list entry is removed. */
  lemma UnwindingIsReversedIff(os: seq<Outcome>)
    ensures Reversed(Run(INIT, os).trail) <==> !SomeOutcome(Effective(os), FailsListed)
  {
    OnlyEffectiveAttemptsCount(INIT, os);
    EffectiveIsEffective(os);
    RunCounts(INIT, Effective(os));
  }
}
