/** An independent observer of the command thread. It knows the wire grammar, the retry rule and the
    selector discipline, but neither the messages nor the slave: it only sees operations go by. */
module Monitor {
  import opened Layout
  import opened Framing
  import opened Wire

  /** The frame whose answer is awaited: attempt number `tries` + 1 of a command, or a fragment that
      comes after `sofar` payload bytes. */
  datatype Exchange = Attempt(frame: seq<byte>, tries: nat) | Piece(frame: seq<byte>, sofar: nat)

  datatype Mon =
    | Idle(sel: int)
    | Reading(tries: nat)             // data read: `tries` reads failed so far
    | Echo(frame: seq<byte>)          // data read: this frame must be echoed
    | Armed                           // selector raised, first frame expected
    | Resend(frame: seq<byte>, tries: nat)
    | NextPiece(previous: seq<byte>, sofar: nat)
    | Waiting(x: Exchange)
    | Receiving(x: Exchange)
    | Restore                         // short command over, selector must drop
    | Broken

  /** The value of `is_eint_timeout` that goes with an observer state. */
  function Selector(m: Mon): int {
    match m
    case Idle(sel) => sel
    case Reading(_) | Echo(_) | Broken => 0
    case _ => 1
  }

  function Timeout(x: Exchange): (ticks: nat)
    ensures ticks == if x.Attempt? then 200 else 500
  {
    if x.Attempt? then COMMAND_TIMEOUT else FRAGMENT_TIMEOUT
  }

  /** The data behind `header.len` is zero. */
  predicate Padded(frame: seq<byte>)
    requires IsFrame(frame)
  {
    forall j :: HEADER_SIZE + Len(frame) <= j < FRAME_SIZE ==> frame[j] == 0
  }

  predicate IsWrapped(tx: seq<byte>) {
    |tx| == FRAME_SIZE + 2 && tx == Wrap(tx[2..])
  }

  function Step(m: Mon, op: Op): Mon {
    match m
    case Idle(_) =>
      if op == Select(0) then Reading(0) else if op == Select(1) then Armed else Broken
    case Reading(tries) =>
      if !op.Read? || op.cmd != READ_COMMAND || !IsReadResponse(op.response) then Broken
      else if Good(op.response) || tries + 1 == RETRY then Echo(RxFrame(op.response))
      else Reading(tries + 1)
    case Echo(frame) =>
      if op.Write? && op.tx == Wrap(frame) then Idle(0) else Broken
    case Armed =>
      if !op.Write? || !IsWrapped(op.tx) || Result(op.tx[2..]) == DATA_READ then Broken
      else
        var frame := op.tx[2..];
        if Len(frame) < FIFO_LEN then Waiting(Attempt(frame, 0))
        else if Len(frame) == FIFO_LEN then Waiting(Piece(frame, 0))
        else Broken
    case Resend(frame, tries) =>
      if op.Write? && op.tx == Wrap(frame) then Waiting(Attempt(frame, tries)) else Broken
    case NextPiece(previous, sofar) =>
      if !op.Write? || !IsWrapped(op.tx) || |previous| != FRAME_SIZE then Broken
      else
        var frame := op.tx[2..];
        if frame[..2] == previous[..2] && Len(frame) <= FIFO_LEN && sofar + Len(frame) <= DATA_LEN && Padded(frame) then
          Waiting(Piece(frame, sofar))
        else Broken
    case Waiting(x) =>
      if op == Wait(Timeout(x)) then Receiving(x) else Broken
    case Receiving(x) =>
      if !op.Read? || op.cmd != READ_COMMAND || !IsReadResponse(op.response) then Broken
      else if x.Piece? then
        if |x.frame| != FRAME_SIZE then Broken
        else if Len(x.frame) < FIFO_LEN then Idle(1) else NextPiece(x.frame, x.sofar + FIFO_LEN)
      else if Good(op.response) || x.tries + 1 == RETRY then Restore
      else Resend(x.frame, x.tries + 1)
    case Restore =>
      if op == Select(0) then Idle(0) else Broken
    case Broken => Broken
  }

  function Observe(m: Mon, ops: seq<Op>): Mon
    decreases |ops|
  {
    if ops == [] then m else Observe(Step(m, ops[0]), ops[1..])
  }

  lemma {:induction false} ObserveAppend(m: Mon, a: seq<Op>, b: seq<Op>)
    ensures Observe(m, a + b) == Observe(Observe(m, a), b)
    decreases |a|
  {
    hide Step;
    if a == [] {
      assert a + b == b;
    } else {
      assert (a + b)[0] == a[0] && (a + b)[1..] == a[1..] + b;
      ObserveAppend(Step(m, a[0]), a[1..], b);
    }
  }

  lemma {:induction false} BrokenForever(ops: seq<Op>)
    ensures Observe(Broken, ops) == Broken
  {
    if ops != [] {
      BrokenForever(ops[1..]);
    }
  }

  lemma ObserveOne(m: Mon, op: Op)
    ensures Observe(m, [op]) == Step(m, op)
  {
    assert [op][1..] == [];
  }

  lemma ObserveRound(m: Mon, frame: seq<byte>, timeout: nat, s: Slave, p: nat)
    ensures Observe(m, Round(frame, timeout, s, p))
         == Step(Step(Step(m, Write(Wrap(frame), s.ok(p))), Wait(timeout)), Read(READ_COMMAND, ReadAnswer(s, p + 1)))
  {
    hide Step, Wrap, ReadAnswer;
    var r := Round(frame, timeout, s, p);
    assert r == [r[0]] + ([r[1]] + [r[2]]);
    ObserveAppend(m, [r[0]], [r[1]] + [r[2]]);
    ObserveOne(m, r[0]);
    ObserveAppend(Step(m, r[0]), [r[1]], [r[2]]);
    ObserveOne(Step(m, r[0]), r[1]);
    ObserveOne(Step(Step(m, r[0]), r[1]), r[2]);
  }

  // ---------------------------------------------------------------- the driver obeys the observer

  lemma {:induction false} ObserveReads(s: Slave, p: nat, k: nat, j: nat)
    requires k == Attempts(s, p, 1) && j < k
    ensures Observe(Reading(j), Reads(s, p, k)[j..]) == Echo(RxFrame(ReadAnswer(s, p + k - 1)))
    decreases k - j
  {
    var ops := Reads(s, p, k)[j..];
    assert ops[0] == Read(READ_COMMAND, ReadAnswer(s, p + j * 1));
    assert ops[1..] == Reads(s, p, k)[j + 1..];
    if j + 1 < k {
      ObserveReads(s, p, k, j + 1);
    }
  }

  /** One attempt of a short command. */
  lemma AttemptRound(frame: seq<byte>, tries: nat, s: Slave, p: nat)
    requires IsFrame(frame) && Len(frame) < FIFO_LEN && Result(frame) != DATA_READ
    ensures Observe(if tries == 0 then Armed else Resend(frame, tries), Round(frame, COMMAND_TIMEOUT, s, p))
         == if Good(ReadAnswer(s, p + 1)) || tries + 1 == RETRY then Restore else Resend(frame, tries + 1)
  {
    hide Good, ReadAnswer, Len, Observe;
    ObserveRound(if tries == 0 then Armed else Resend(frame, tries), frame, COMMAND_TIMEOUT, s, p);
  }

  /** One fragment, the first one or one that follows `previous`. */
  lemma PieceRound(first: bool, previous: seq<byte>, sofar: nat, frame: seq<byte>, s: Slave, p: nat)
    requires IsFrame(frame) && Len(frame) <= FIFO_LEN && sofar + Len(frame) <= DATA_LEN && Padded(frame)
    requires first ==> Len(frame) == FIFO_LEN && Result(frame) != DATA_READ && sofar == 0
    requires !first ==> IsFrame(previous) && frame[..2] == previous[..2]
    ensures Observe(if first then Armed else NextPiece(previous, sofar), Round(frame, FRAGMENT_TIMEOUT, s, p))
         == if Len(frame) < FIFO_LEN then Idle(1) else NextPiece(frame, sofar + FIFO_LEN)
  {
    hide Good, ReadAnswer, Len, Observe, Padded;
    ObserveRound(if first then Armed else NextPiece(previous, sofar), frame, FRAGMENT_TIMEOUT, s, p);
  }

  lemma {:induction false} ObserveRetries(frame: seq<byte>, s: Slave, p: nat, k: nat, j: nat)
    requires IsFrame(frame) && Len(frame) < FIFO_LEN && Result(frame) != DATA_READ
    requires k == Attempts(s, p + 1, 2) && j < k
    ensures Observe(if j == 0 then Armed else Resend(frame, j),
                    Rounds(Repeat(frame, k - j), COMMAND_TIMEOUT, s, p + 2 * j)) == Restore
    decreases k - j
  {
    hide Step, Good, Len, Result, Attempts, Round, Wrap;
    var start := if j == 0 then Armed else Resend(frame, j);
    var rest := Rounds(Repeat(frame, k - j - 1), COMMAND_TIMEOUT, s, p + 2 * j + 2);
    assert Repeat(frame, k - j)[1..] == Repeat(frame, k - j - 1);
    ObserveAppend(start, Round(frame, COMMAND_TIMEOUT, s, p + 2 * j), rest);
    AttemptRound(frame, j, s, p + 2 * j);
    assert p + 2 * j + 1 == p + 1 + j * 2;
    if j + 1 < k {
      ObserveRetries(frame, s, p, k, j + 1);
    } else {
      assert rest == [];
    }
  }

  lemma NeighbouringFragments(m: seq<byte>, i: nat)
    requires IsMessage(m) && i < FragmentCount(Len(m))
    ensures Encode(m)[i][..2] == [Result(m), CmdId(m)]
  {
    hide Encode;
    FragmentFields(m, i);
  }

  lemma {:induction false} ObservePieces(m: seq<byte>, s: Slave, p: nat, i: nat)
    requires IsMessage(m) && KindOf(m).Fragmented? && i < FragmentCount(Len(m))
    ensures Observe(if i == 0 then Armed else NextPiece(Encode(m)[i - 1], i * FIFO_LEN),
                    Rounds(Encode(m)[i..], FRAGMENT_TIMEOUT, s, p + 2 * i)) == Idle(1)
    decreases FragmentCount(Len(m)) - i
  {
    hide Encode, Step, Round, Wrap, Result, CmdId, Len;
    var frames := Encode(m);
    var previous := if i == 0 then frames[0] else frames[i - 1];
    var start := if i == 0 then Armed else NextPiece(previous, i * FIFO_LEN);
    var rest := Rounds(frames[i + 1..], FRAGMENT_TIMEOUT, s, p + 2 * i + 2);
    assert frames[i..][0] == frames[i] && frames[i..][1..] == frames[i + 1..];
    ObserveAppend(start, Round(frames[i], FRAGMENT_TIMEOUT, s, p + 2 * i), rest);
    FragmentFields(m, i);
    NeighbouringFragments(m, i);
    NeighbouringFragments(m, if i == 0 then 0 else i - 1);
    PieceRound(i == 0, previous, i * FIFO_LEN, frames[i], s, p + 2 * i);
    if i + 1 < FragmentCount(Len(m)) {
      ObservePieces(m, s, p, i + 1);
    } else {
      assert rest == [];
    }
  }

  lemma DataReadIsObserved(m: seq<byte>, s: Slave, p: nat, sel: int)
    requires IsMessage(m) && KindOf(m).DataRead?
    ensures Observe(Idle(sel), SendOps(m, s, p)) == Idle(0)
  {
    hide Observe, Attempts, RxFrame, Wrap;
    var k := Tries(m, s, p);
    var echo := Write(Wrap(RxFrame(ReadAnswer(s, p + k - 1))), s.ok(p + k));
    ObserveReads(s, p, k, 0);
    assert Reads(s, p, k)[0..] == Reads(s, p, k);
    ObserveSandwich(Idle(sel), Select(0), Reads(s, p, k), [echo]);
    ObserveOne(Echo(RxFrame(ReadAnswer(s, p + k - 1))), echo);
  }

  lemma ShortIsObserved(m: seq<byte>, s: Slave, p: nat, sel: int)
    requires IsMessage(m) && KindOf(m).Short?
    ensures Observe(Idle(sel), SendOps(m, s, p)) == Idle(0)
  {
    hide Observe, Attempts, Rounds;
    var k := Tries(m, s, p);
    ObserveRetries(m[..FRAME_SIZE], s, p, k, 0);
    ObserveSandwich(Idle(sel), Select(1), Rounds(Repeat(m[..FRAME_SIZE], k), COMMAND_TIMEOUT, s, p), [Select(0)]);
    ObserveOne(Restore, Select(0));
  }

  lemma FragmentedIsObserved(m: seq<byte>, s: Slave, p: nat, sel: int)
    requires IsMessage(m) && KindOf(m).Fragmented?
    ensures Observe(Idle(sel), SendOps(m, s, p)) == Idle(1)
  {
    hide Observe, Encode, Rounds;
    ObservePieces(m, s, p, 0);
    assert Encode(m)[0..] == Encode(m);
    ObserveAppend(Idle(sel), [Select(1)], Rounds(Encode(m), FRAGMENT_TIMEOUT, s, p));
    ObserveOne(Idle(sel), Select(1));
  }

  /** Every send, of any message to any slave, is accepted from any idle state and leaves the observer
      idle with the selector at 1 exactly when the send fragmented. */
  lemma SendIsObserved(m: seq<byte>, s: Slave, p: nat, sel: int)
    requires IsMessage(m)
    ensures Observe(Idle(sel), SendOps(m, s, p)) == Idle(SelectorAfter(m))
  {
    hide SendOps, Observe;
    match KindOf(m)
    case DataRead => DataReadIsObserved(m, s, p, sel);
    case Short => ShortIsObserved(m, s, p, sel);
    case Fragmented => FragmentedIsObserved(m, s, p, sel);
  }

  lemma ObserveSandwich(m: Mon, first: Op, middle: seq<Op>, last: seq<Op>)
    ensures Observe(m, [first] + middle + last) == Observe(Observe(Step(m, first), middle), last)
  {
    ObserveAppend(m, [first] + middle, last);
    ObserveAppend(m, [first], middle);
    ObserveOne(m, first);
  }

  /** The same over whole sessions. */
  lemma {:induction false} SessionIsObserved(ms: seq<seq<byte>>, s: Slave, p: nat, sel: int)
    requires forall i :: 0 <= i < |ms| ==> IsMessage(ms[i])
    ensures Observe(Idle(sel), Session(ms, s, p)) == Idle(if ms == [] then sel else SessionSelector(ms))
  {
    hide SendOps, SendTransfers, SelectorAfter, Step;
    if ms != [] {
      var q := p + SendTransfers(ms[0], s, p);
      ObserveAppend(Idle(sel), SendOps(ms[0], s, p), Session(ms[1..], s, q));
      SendIsObserved(ms[0], s, p, sel);
      SessionIsObserved(ms[1..], s, q, SelectorAfter(ms[0]));
    }
  }

  // ---------------------------------------------------------------- selector discipline

  /** `is_eint_timeout` after some operations: the last value assigned. */
  function LastSelect(ops: seq<Op>, before: int): int {
    if ops == [] then before
    else if ops[|ops| - 1].Select? then ops[|ops| - 1].value
    else LastSelect(ops[..|ops| - 1], before)
  }

  lemma SelectorFollowsStep(m: Mon, op: Op)
    requires Step(m, op) != Broken
    ensures Selector(Step(m, op)) == if op.Select? then op.value else Selector(m)
  {
    hide Good, Wrap, RxFrame;
  }

  lemma {:induction false} SelectorTracked(m: Mon, ops: seq<Op>)
    requires Observe(m, ops) != Broken
    ensures LastSelect(ops, Selector(m)) == Selector(Observe(m, ops))
    decreases |ops|
  {
    hide Step, Selector;
    if ops == [] {
      ObserveNothing(m);
    } else {
      var n := |ops| - 1;
      PrefixNotBroken(m, ops, n);
      assert ops[..n + 1] == ops;
      SelectorTracked(m, ops[..n]);
      SelectorFollowsStep(Observe(m, ops[..n]), ops[n]);
    }
  }

  lemma {:induction false} PrefixNotBroken(m: Mon, ops: seq<Op>, i: nat)
    requires Observe(m, ops) != Broken && i < |ops|
    ensures Observe(m, ops[..i]) != Broken
    ensures Step(Observe(m, ops[..i]), ops[i]) == Observe(m, ops[..i + 1]) != Broken
  {
    assert ops == ops[..i + 1] + ops[i + 1..];
    ObserveAppend(m, ops[..i + 1], ops[i + 1..]);
    BrokenForever(ops[i + 1..]);
    assert ops[..i + 1] == ops[..i] + [ops[i]];
    ObserveAppend(m, ops[..i], [ops[i]]);
    ObserveOne(Observe(m, ops[..i]), ops[i]);
  }

  lemma StepDiscipline(m: Mon, op: Op)
    requires Step(m, op) != Broken
    ensures op.Wait? ==> Selector(m) == 1
    ensures op.Read? ==> (m.Receiving? && Selector(m) == 1) || (m.Reading? && Selector(m) == 0)
    ensures Step(m, op).Receiving? <==> op.Wait?
  {
    hide Good, Wrap, RxFrame, Len;
  }

  /** In every run of the command thread the selector is 1 during each timed wait and during the read
      that follows it, and 0 during each read of a data read. */
  lemma SelectorDiscipline(ms: seq<seq<byte>>, s: Slave, i: nat)
    requires forall j :: 0 <= j < |ms| ==> IsMessage(ms[j])
    requires i < |Session(ms, s, 0)|
    ensures var ops := Session(ms, s, 0);
            && (ops[i].Wait? ==> LastSelect(ops[..i], 0) == 1)
            && (ops[i].Read? ==> i > 0 && LastSelect(ops[..i], 0) == if ops[i - 1].Wait? then 1 else 0)
  {
    hide Session, Step, Observe, LastSelect;
    var ops := Session(ms, s, 0);
    SessionIsObserved(ms, s, 0, 0);
    PrefixNotBroken(Idle(0), ops, i);
    SelectorTracked(Idle(0), ops[..i]);
    StepDiscipline(Observe(Idle(0), ops[..i]), ops[i]);
    if i > 0 {
      PrefixNotBroken(Idle(0), ops, i - 1);
      StepDiscipline(Observe(Idle(0), ops[..i - 1]), ops[i - 1]);
    } else {
      assert ops[..0] == [];
      ObserveNothing(Idle(0));
    }
  }

  lemma ObserveNothing(m: Mon)
    ensures Observe(m, []) == m
  {
  }
}
