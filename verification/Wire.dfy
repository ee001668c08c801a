/** What one driver call puts on the SPI bus, as a value: the operations in order, the reply handed
    back, and how many transfers it took. The slave is arbitrary. */
module Wire {
  import opened Layout
  import opened Framing

  const RETRY := 3
  const COMMAND_TIMEOUT := 200
  const FRAGMENT_TIMEOUT := 500

  /** Answer of the bus to one transfer: it failed and the receive buffer kept its bytes, or these
      bytes were shifted in. */
  datatype Response = Failed | Shifted(rx: seq<byte>)

  /** Any slave and any bus: `ok` says which transfers succeed, `out(k, j)` is byte j shifted out
      during transfer k. */
  datatype Slave = Slave(ok: nat -> bool, out: (nat, nat) -> byte)

  /** One observable operation of the command thread. `Select` assigns `is_eint_timeout`. */
  datatype Op =
    | Select(value: int)
    | Write(tx: seq<byte>, ok: bool)
    | Wait(timeout: nat)
    | Read(cmd: seq<byte>, response: Response)

  function Answer(s: Slave, k: nat, n: nat): (r: Response)
    ensures r.Shifted? ==> |r.rx| == n
  {
    if s.ok(k) then Shifted(seq(n, (j: nat) => s.out(k, j))) else Failed
  }

  /** The bytes of a receive buffer after a transfer answered by `r`. */
  function Received(before: seq<byte>, r: Response): seq<byte> {
    match r
    case Failed => before
    case Shifted(rx) => rx
  }

  /** Write command, frame. */
  function Wrap(frame: seq<byte>): (tx: seq<byte>)
    ensures |tx| == |frame| + 2 && tx[0] == 0x02 && tx[1] == 0x00
    ensures tx[2..] == frame
  {
    [0x02, 0x00] + frame
  }

  const READ_COMMAND: seq<byte> := [0x03, 0x00] + Zeros(READ_SIZE - 2)

  predicate IsReadResponse(r: Response) {
    r.Shifted? ==> |r.rx| == READ_SIZE
  }

  /** The frame at offset 2 of a read into a cleared buffer. */
  function RxFrame(r: Response): (f: seq<byte>)
    requires IsReadResponse(r)
    ensures IsFrame(f)
  {
    match r
    case Failed => Zeros(FRAME_SIZE)
    case Shifted(rx) => rx[2..2 + FRAME_SIZE]
  }

  /** The slave really shifted in SUCCESS as first response byte. */
  predicate Good(r: Response) {
    r.Shifted? && |r.rx| == READ_SIZE && r.rx[2] == SUCCESS
  }

  lemma ResultOfRxFrame(r: Response)
    requires IsReadResponse(r)
    ensures Result(RxFrame(r)) == SUCCESS <==> Good(r)
  {
  }

  function ReadAnswer(s: Slave, k: nat): (r: Response)
    ensures IsReadResponse(r)
  {
    Answer(s, k, READ_SIZE)
  }

  /** How many of at most three reads, at transfers first, first + stride, ..., are issued. */
  function Attempts(s: Slave, first: nat, stride: nat): (k: nat)
    ensures 1 <= k <= 3
    ensures forall j :: 0 <= j < k - 1 ==> !Good(ReadAnswer(s, first + j * stride))
    ensures k < 3 ==> Good(ReadAnswer(s, first + (k - 1) * stride))
  {
    if Good(ReadAnswer(s, first)) then 1
    else if Good(ReadAnswer(s, first + stride)) then 2
    else assert !Good(ReadAnswer(s, first + 1 * stride)); 3
  }

  /** The contract of `Attempts` has one solution: the first success, or the last try. */
  lemma AttemptsUnique(s: Slave, first: nat, stride: nat, k: nat)
    requires 1 <= k <= 3
    requires forall j :: 0 <= j < k - 1 ==> !Good(ReadAnswer(s, first + j * stride))
    requires k < 3 ==> Good(ReadAnswer(s, first + (k - 1) * stride))
    ensures k == Attempts(s, first, stride)
  {
    assert first + 0 * stride == first && first + 1 * stride == first + stride;
    if k > 1 {
      assert !Good(ReadAnswer(s, first + 0 * stride));
    }
    if k > 2 {
      assert !Good(ReadAnswer(s, first + 1 * stride));
    }
  }

  function Round(frame: seq<byte>, timeout: nat, s: Slave, p: nat): seq<Op> {
    [Write(Wrap(frame), s.ok(p)), Wait(timeout), Read(READ_COMMAND, ReadAnswer(s, p + 1))]
  }

  function Rounds(frames: seq<seq<byte>>, timeout: nat, s: Slave, p: nat): (ops: seq<Op>)
    ensures |ops| == 3 * |frames|
  {
    if frames == [] then [] else Round(frames[0], timeout, s, p) + Rounds(frames[1..], timeout, s, p + 2)
  }

  lemma {:induction false} RoundsAppend(frames: seq<seq<byte>>, f: seq<byte>, timeout: nat, s: Slave, p: nat)
    ensures Rounds(frames + [f], timeout, s, p)
         == Rounds(frames, timeout, s, p) + Round(f, timeout, s, p + 2 * |frames|)
  {
    if frames == [] {
      assert frames + [f] == [f];
    } else {
      assert (frames + [f])[1..] == frames[1..] + [f];
      RoundsAppend(frames[1..], f, timeout, s, p + 2);
    }
  }

  function Repeat<T>(x: T, n: nat): (s: seq<T>)
    ensures |s| == n && forall i :: 0 <= i < n ==> s[i] == x
  {
    seq(n, i => x)
  }

  function Reads(s: Slave, p: nat, k: nat): (ops: seq<Op>)
    ensures |ops| == k
  {
    seq(k, (j: nat) => Read(READ_COMMAND, ReadAnswer(s, p + j)))
  }

  datatype Kind = DataRead | Short | Fragmented

  function KindOf(m: seq<byte>): Kind
    requires IsMessage(m)
  {
    if Result(m) == DATA_READ then DataRead
    else if Len(m) < FIFO_LEN then Short
    else Fragmented
  }

  /** Number of attempts of a retried send, or of fragments of a fragmented one. */
  function Tries(m: seq<byte>, s: Slave, p: nat): (k: nat)
    requires IsMessage(m)
    ensures 1 <= k
  {
    match KindOf(m)
    case DataRead => Attempts(s, p, 1)
    case Short => Attempts(s, p + 1, 2)
    case Fragmented => FragmentCount(Len(m))
  }

  /** Everything one call of `esp_spi_send` does on the bus when its first transfer is number p. */
  function SendOps(m: seq<byte>, s: Slave, p: nat): seq<Op>
    requires IsMessage(m)
  {
    var k := Tries(m, s, p);
    match KindOf(m)
    case DataRead =>
      [Select(0)] + Reads(s, p, k) + [Write(Wrap(RxFrame(ReadAnswer(s, p + k - 1))), s.ok(p + k))]
    case Short =>
      [Select(1)] + Rounds(Repeat(m[..FRAME_SIZE], k), COMMAND_TIMEOUT, s, p) + [Select(0)]
    case Fragmented =>
      [Select(1)] + Rounds(Encode(m), FRAGMENT_TIMEOUT, s, p)
  }

  function SendTransfers(m: seq<byte>, s: Slave, p: nat): nat
    requires IsMessage(m)
  {
    var k := Tries(m, s, p);
    if KindOf(m).DataRead? then k + 1 else 2 * k
  }

  /** The read whose response is returned: the last one of this call. */
  function LastRead(m: seq<byte>, s: Slave, p: nat): nat
    requires IsMessage(m)
  {
    var k := Tries(m, s, p);
    if KindOf(m).DataRead? then p + k - 1 else p + 2 * k - 1
  }

  function Reply(m: seq<byte>, s: Slave, p: nat): (r: seq<byte>)
    requires IsMessage(m)
    ensures |r| == MESSAGE_SIZE
  {
    RxFrame(ReadAnswer(s, LastRead(m, s, p))) + Zeros(MESSAGE_SIZE - FRAME_SIZE)
  }

  function SelectorAfter(m: seq<byte>): int
    requires IsMessage(m)
  {
    if KindOf(m).Fragmented? then 1 else 0
  }

  // ---------------------------------------------------------------- whole sessions

  /** The bus trace of a list of sends, the first one starting at transfer p. */
  function Session(ms: seq<seq<byte>>, s: Slave, p: nat): seq<Op>
    requires forall i :: 0 <= i < |ms| ==> IsMessage(ms[i])
  {
    if ms == [] then []
    else SendOps(ms[0], s, p) + Session(ms[1..], s, p + SendTransfers(ms[0], s, p))
  }

  function SessionTransfers(ms: seq<seq<byte>>, s: Slave, p: nat): nat
    requires forall i :: 0 <= i < |ms| ==> IsMessage(ms[i])
  {
    if ms == [] then 0
    else SendTransfers(ms[0], s, p) + SessionTransfers(ms[1..], s, p + SendTransfers(ms[0], s, p))
  }

  function SessionSelector(ms: seq<seq<byte>>): int
    requires forall i :: 0 <= i < |ms| ==> IsMessage(ms[i])
  {
    if ms == [] then 0 else SelectorAfter(ms[|ms| - 1])
  }

  lemma {:induction false} SessionAppend(ms: seq<seq<byte>>, m: seq<byte>, s: Slave, p: nat)
    requires forall i :: 0 <= i < |ms| ==> IsMessage(ms[i])
    requires IsMessage(m)
    ensures var q := p + SessionTransfers(ms, s, p);
            && Session(ms + [m], s, p) == Session(ms, s, p) + SendOps(m, s, q)
            && SessionTransfers(ms + [m], s, p) == SessionTransfers(ms, s, p) + SendTransfers(m, s, q)
  {
    hide SendOps, SendTransfers, KindOf, Tries;
    if ms == [] {
      assert ms + [m] == [m];
      assert [m][1..] == [];
    } else {
      var a, t := SendOps(ms[0], s, p), SendTransfers(ms[0], s, p);
      assert (ms + [m])[1..] == ms[1..] + [m];
      SessionAppend(ms[1..], m, s, p + t);
      var b, c := Session(ms[1..], s, p + t), SendOps(m, s, p + t + SessionTransfers(ms[1..], s, p + t));
      assert a + (b + c) == (a + b) + c;
    }
  }

  // ---------------------------------------------------------------- verdict

  /** The result byte of the reply says SUCCESS exactly when a read of this very call brought SUCCESS:
      any of its reads in the retried forms, the one after the last fragment otherwise. */
  lemma VerdictIsFresh(m: seq<byte>, s: Slave, p: nat)
    requires IsMessage(m)
    ensures var ops := SendOps(m, s, p);
            if KindOf(m).Fragmented? then
              && |ops| > 0 && ops[|ops| - 1].Read?
              && (Result(Reply(m, s, p)) == SUCCESS <==> Good(ops[|ops| - 1].response))
            else
              Result(Reply(m, s, p)) == SUCCESS <==> SomeReadGood(ops)
  {
    match KindOf(m)
    case Fragmented => FragmentedVerdict(m, s, p);
    case DataRead => DataReadVerdict(m, s, p);
    case Short => ShortVerdict(m, s, p);
  }

  lemma VerdictOfReply(m: seq<byte>, s: Slave, p: nat)
    requires IsMessage(m)
    ensures Result(Reply(m, s, p)) == SUCCESS <==> Good(ReadAnswer(s, LastRead(m, s, p)))
  {
    hide LastRead, ReadAnswer, Good, RxFrame;
    ResultOfRxFrame(ReadAnswer(s, LastRead(m, s, p)));
  }

  lemma FragmentedEndsInRead(m: seq<byte>, s: Slave, p: nat)
    requires IsMessage(m) && KindOf(m).Fragmented?
    ensures var ops := SendOps(m, s, p);
            ops != [] && ops[|ops| - 1] == Read(READ_COMMAND, ReadAnswer(s, LastRead(m, s, p)))
  {
    hide Rounds, Encode, ReadAnswer, Attempts;
    var n := FragmentCount(Len(m));
    var rounds := Rounds(Encode(m), FRAGMENT_TIMEOUT, s, p);
    RoundsAt(Encode(m), FRAGMENT_TIMEOUT, s, p, n - 1);
    var ops := SendOps(m, s, p);
    assert ops[|ops| - 1] == rounds[3 * (n - 1) + 2];
  }

  lemma FragmentedVerdict(m: seq<byte>, s: Slave, p: nat)
    requires IsMessage(m) && KindOf(m).Fragmented?
    ensures var ops := SendOps(m, s, p);
            && |ops| > 0 && ops[|ops| - 1].Read?
            && (Result(Reply(m, s, p)) == SUCCESS <==> Good(ops[|ops| - 1].response))
  {
    hide SendOps, LastRead, ReadAnswer, Good, Reply, KindOf;
    VerdictOfReply(m, s, p);
    FragmentedEndsInRead(m, s, p);
  }

  lemma DataReadVerdict(m: seq<byte>, s: Slave, p: nat)
    requires IsMessage(m) && KindOf(m).DataRead?
    ensures Result(Reply(m, s, p)) == SUCCESS <==> SomeReadGood(SendOps(m, s, p))
  {
    var k := Tries(m, s, p);
    VerdictOfReply(m, s, p);
    hide Attempts, RxFrame, Wrap, Good, Reply, ReadAnswer, SomeReadGood;
    GoodReads(s, p, k, Write(Wrap(RxFrame(ReadAnswer(s, p + k - 1))), s.ok(p + k)));
  }

  lemma ShortVerdict(m: seq<byte>, s: Slave, p: nat)
    requires IsMessage(m) && KindOf(m).Short?
    ensures Result(Reply(m, s, p)) == SUCCESS <==> SomeReadGood(SendOps(m, s, p))
  {
    var k := Tries(m, s, p);
    VerdictOfReply(m, s, p);
    hide Attempts, Rounds, Good, Reply, ReadAnswer, SomeReadGood;
    GoodRounds(m[..FRAME_SIZE], s, p, k);
  }

  predicate SomeReadGood(ops: seq<Op>) {
    exists i :: 0 <= i < |ops| && ops[i].Read? && Good(ops[i].response)
  }

  lemma GoodReads(s: Slave, p: nat, k: nat, w: Op)
    requires k == Attempts(s, p, 1) && w.Write?
    ensures SomeReadGood([Select(0)] + Reads(s, p, k) + [w]) <==> Good(ReadAnswer(s, p + k - 1))
  {
    var ops := [Select(0)] + Reads(s, p, k) + [w];
    forall i | 0 <= i < |ops| && ops[i].Read? && Good(ops[i].response)
      ensures Good(ReadAnswer(s, p + k - 1))
    {
      assert Good(ReadAnswer(s, p + (i - 1) * 1));
    }
    assert ops[k] == Read(READ_COMMAND, ReadAnswer(s, p + k - 1));
  }

  lemma GoodRounds(frame: seq<byte>, s: Slave, p: nat, k: nat)
    requires k == Attempts(s, p + 1, 2)
    ensures SomeReadGood([Select(1)] + Rounds(Repeat(frame, k), COMMAND_TIMEOUT, s, p) + [Select(0)])
       <==> Good(ReadAnswer(s, p + 2 * k - 1))
  {
    hide Rounds, Attempts, Repeat, ReadAnswer, Wrap;
    var rounds := Rounds(Repeat(frame, k), COMMAND_TIMEOUT, s, p);
    var ops := [Select(1)] + rounds + [Select(0)];
    forall i | 0 <= i < |ops| && ops[i].Read? && Good(ops[i].response)
      ensures Good(ReadAnswer(s, p + 2 * k - 1))
    {
      var j := (i - 1) / 3;
      RoundsAt(Repeat(frame, k), COMMAND_TIMEOUT, s, p, j);
      assert ops[i] == rounds[i - 1] && i - 1 == 3 * j + 2;
      assert Good(ReadAnswer(s, p + 1 + j * 2));
    }
    RoundsAt(Repeat(frame, k), COMMAND_TIMEOUT, s, p, k - 1);
    assert ops[3 * k] == rounds[3 * (k - 1) + 2];
  }

  /** Round j of a list of rounds sits at positions 3j, 3j + 1, 3j + 2. */
  lemma {:induction false} RoundsAt(frames: seq<seq<byte>>, timeout: nat, s: Slave, p: nat, j: nat)
    requires j < |frames|
    ensures var r := Rounds(frames, timeout, s, p);
            && r[3 * j] == Write(Wrap(frames[j]), s.ok(p + 2 * j))
            && r[3 * j + 1] == Wait(timeout)
            && r[3 * j + 2] == Read(READ_COMMAND, ReadAnswer(s, p + 2 * j + 1))
  {
    if j > 0 {
      RoundsAt(frames[1..], timeout, s, p + 2, j - 1);
    }
  }

  /** Whatever the slave says, a reply is zero from payload byte 28 on, so the C string in it is
      terminated inside the message and has at most 28 characters. */
  lemma ReplyStringIsBounded(m: seq<byte>, s: Slave, p: nat)
    requires IsMessage(m)
    ensures var r := Reply(m, s, p);
            && (forall i :: FRAME_SIZE <= i < MESSAGE_SIZE ==> r[i] == 0)
            && |CString(r[HEADER_SIZE..])| <= FIFO_LEN
  {
    var r := Reply(m, s, p);
    assert r[HEADER_SIZE..][FIFO_LEN] == r[FRAME_SIZE] == 0;
  }

  /** A data read echoes one frame: the last response of the call, which is also the head of the
      reply, whether or not it says SUCCESS. */
  lemma DataReadEcho(m: seq<byte>, s: Slave, p: nat)
    requires IsMessage(m) && KindOf(m).DataRead?
    ensures var ops := SendOps(m, s, p);
            var n := |ops|;
            && n >= 3 && ops[n - 1].Write? && ops[n - 2].Read?
            && IsReadResponse(ops[n - 2].response)
            && ops[n - 1].tx[2..] == RxFrame(ops[n - 2].response) == Reply(m, s, p)[..FRAME_SIZE]
  {
    hide Attempts, RxFrame, Wrap, ReadAnswer;
    var ops, k := SendOps(m, s, p), Tries(m, s, p);
    var r := ReadAnswer(s, p + k - 1);
    LastOfReads(s, p, k);
    assert ops[|ops| - 2] == Read(READ_COMMAND, r);
    assert ops[|ops| - 1] == Write(Wrap(RxFrame(r)), s.ok(p + k));
    assert Reply(m, s, p)[..FRAME_SIZE] == RxFrame(r);
  }

  /** The response of the last read in a trace. */
  function LastResponse(ops: seq<Op>): Response {
    if ops == [] then Failed
    else if ops[|ops| - 1].Read? then ops[|ops| - 1].response
    else LastResponse(ops[..|ops| - 1])
  }

  lemma LastResponseSkips(ops: seq<Op>, last: Op)
    requires !last.Read?
    ensures LastResponse(ops + [last]) == LastResponse(ops)
  {
    assert (ops + [last])[..|ops|] == ops;
  }

  /** The message handed back is the frame of the last read of this very send, and nothing else. */
  lemma ReplyIsTheLastRead(m: seq<byte>, s: Slave, p: nat)
    requires IsMessage(m)
    ensures var r := LastResponse(SendOps(m, s, p));
            IsReadResponse(r) && Reply(m, s, p) == RxFrame(r) + Zeros(MESSAGE_SIZE - FRAME_SIZE)
  {
    LastReadIsLast(m, s, p);
    hide SendOps, LastRead, RxFrame, Zeros;
  }

  lemma LastReadIsLast(m: seq<byte>, s: Slave, p: nat)
    requires IsMessage(m)
    ensures LastResponse(SendOps(m, s, p)) == ReadAnswer(s, LastRead(m, s, p))
  {
    hide Rounds, Attempts, RxFrame, Reads, Repeat, Encode, Wrap, LastResponse, ReadAnswer;
    var k := Tries(m, s, p);
    match KindOf(m)
    case DataRead =>
      var ops := [Select(0)] + Reads(s, p, k);
      LastOfReads(s, p, k);
      EndsInRead(ops, ReadAnswer(s, p + k - 1));
      LastResponseSkips(ops, Write(Wrap(RxFrame(ReadAnswer(s, p + k - 1))), s.ok(p + k)));
    case Short =>
      var ops := [Select(1)] + Rounds(Repeat(m[..FRAME_SIZE], k), COMMAND_TIMEOUT, s, p);
      RoundsAt(Repeat(m[..FRAME_SIZE], k), COMMAND_TIMEOUT, s, p, k - 1);
      EndsInRead(ops, ReadAnswer(s, p + 2 * k - 1));
      LastResponseSkips(ops, Select(0));
    case Fragmented =>
      FragmentedEndsInRead(m, s, p);
      EndsInRead(SendOps(m, s, p), ReadAnswer(s, LastRead(m, s, p)));
  }

  lemma EndsInRead(ops: seq<Op>, r: Response)
    requires ops != [] && ops[|ops| - 1].Read? && ops[|ops| - 1].response == r
    ensures LastResponse(ops) == r
  {
  }

  lemma LastOfReads(s: Slave, p: nat, k: nat)
    requires k > 0
    ensures Reads(s, p, k)[k - 1] == Read(READ_COMMAND, ReadAnswer(s, p + k - 1))
  {
  }
}
