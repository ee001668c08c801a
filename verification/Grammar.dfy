/** The converse of the observer's soundness: whatever it accepts is a trace of the driver. Together
    they say that the wire grammar is exact. */
module Grammar {
  import opened Layout
  import opened Framing
  import opened Wire
  import opened Monitor

  /** The transfers of `ops`, counted from p, went as slave s says. */
  predicate Agrees(s: Slave, p: nat, ops: seq<Op>)
    decreases |ops|
  {
    ops == [] ||
    match ops[0]
    case Write(_, ok) => s.ok(p) == ok && Agrees(s, p + 1, ops[1..])
    case Read(_, r) => r == ReadAnswer(s, p) && Agrees(s, p + 1, ops[1..])
    case _ => Agrees(s, p, ops[1..])
  }

  lemma AgreesHead(s: Slave, p: nat, ops: seq<Op>)
    requires ops != [] && Agrees(s, p, ops)
    ensures ops[0].Write? ==> ops[0] == Write(ops[0].tx, s.ok(p)) && Agrees(s, p + 1, ops[1..])
    ensures ops[0].Read? ==> ops[0] == Read(ops[0].cmd, ReadAnswer(s, p)) && Agrees(s, p + 1, ops[1..])
    ensures ops[0].Wait? || ops[0].Select? ==> Agrees(s, p, ops[1..])
  {
  }

  // ---------------------------------------------------------------- one exchange

  lemma FirstStep(m: Mon, ops: seq<Op>)
    requires Observe(m, ops).Idle? && !m.Idle?
    ensures ops != [] && Step(m, ops[0]) != Broken && Observe(Step(m, ops[0]), ops[1..]).Idle?
  {
    BrokenForever(if ops == [] then [] else ops[1..]);
  }

  lemma WaitStep(x: Exchange, op: Op)
    requires Step(Waiting(x), op) != Broken
    ensures op == Wait(Timeout(x)) && Step(Waiting(x), op) == Receiving(x)
  {
  }

  lemma ReadStep(x: Exchange, op: Op)
    requires Step(Receiving(x), op) != Broken
    ensures op.Read? && op.cmd == READ_COMMAND
  {
  }

  /** A frame that was accepted is followed by its wait and its read. */
  lemma TakeRound(m: Mon, x: Exchange, ops: seq<Op>, s: Slave, q: nat)
    requires Observe(m, ops).Idle? && Agrees(s, q, ops) && !m.Idle?
    requires ops != [] && ops[0].Write? && ops[0].tx == Wrap(x.frame) && Step(m, ops[0]) == Waiting(x)
    ensures |ops| >= 3 && ops[..3] == Round(x.frame, Timeout(x), s, q)
    ensures Agrees(s, q + 2, ops[3..])
    ensures Step(Receiving(x), ops[2]) != Broken && Observe(Step(Receiving(x), ops[2]), ops[3..]).Idle?
  {
    hide Step, Observe, Wrap, ReadAnswer, Agrees, Timeout;
    FirstStep(m, ops);
    AgreesHead(s, q, ops);
    var ops1 := ops[1..];
    FirstStep(Waiting(x), ops1);
    WaitStep(x, ops1[0]);
    AgreesHead(s, q + 1, ops1);
    var ops2 := ops1[1..];
    FirstStep(Receiving(x), ops2);
    ReadStep(x, ops2[0]);
    AgreesHead(s, q + 1, ops2);
    assert ops2[1..] == ops[3..] && ops1[0] == ops[1] && ops2[0] == ops[2];
    assert ops[..3] == [ops[0], ops[1], ops[2]];
  }

  // ---------------------------------------------------------------- one send

  lemma {:induction false} ParseReads(ops: seq<Op>, s: Slave, p: nat, j: nat) returns (n: nat)
    requires j < RETRY && Observe(Reading(j), ops).Idle? && Agrees(s, p + j, ops)
    requires forall i :: 0 <= i < j ==> !Good(ReadAnswer(s, p + i * 1))
    ensures var k := Attempts(s, p, 1);
            && j < k && n <= |ops|
            && ops[..n] == Reads(s, p, k)[j..] + [Write(Wrap(RxFrame(ReadAnswer(s, p + k - 1))), s.ok(p + k))]
            && Agrees(s, p + k + 1, ops[n..])
    decreases RETRY - j
  {
    hide Attempts, ReadAnswer, Good, RxFrame, Wrap, Observe, Agrees, Step, Reads;
    FirstStep(Reading(j), ops);
    var ops1, r := ops[1..], ReadAnswer(s, p + j);
    DataReadStep(j, ops[0]);
    AgreesHead(s, p + j, ops);
    assert ops[0] == Read(READ_COMMAND, r) && p + j * 1 == p + j;
    if Good(r) || j + 1 == RETRY {
      AttemptsUnique(s, p, 1, j + 1);
      FirstStep(Echo(RxFrame(r)), ops1);
      EchoStep(RxFrame(r), ops1[0]);
      AgreesHead(s, p + j + 1, ops1);
      ReadsFrom(s, p, j + 1, j);
      n := 2;
      assert ops[..2] == [ops[0]] + [ops1[0]] && ops1[1..] == ops[2..];
      assert [ops[0]] + [] == [ops[0]];
    } else {
      var n1 := ParseReads(ops1, s, p, j + 1);
      ReadsFrom(s, p, Attempts(s, p, 1), j);
      n := n1 + 1;
      assert ops[..n] == [ops[0]] + ops1[..n1] && ops1[n1..] == ops[n..];
    }
  }

  lemma DataReadStep(j: nat, op: Op)
    requires Step(Reading(j), op) != Broken
    ensures op.Read? && op.cmd == READ_COMMAND && IsReadResponse(op.response)
    ensures Step(Reading(j), op)
         == if Good(op.response) || j + 1 == RETRY then Echo(RxFrame(op.response)) else Reading(j + 1)
  {
  }

  lemma EchoStep(frame: seq<byte>, op: Op)
    requires Step(Echo(frame), op) != Broken
    ensures op.Write? && op.tx == Wrap(frame)
  {
  }

  lemma ReadsFrom(s: Slave, p: nat, k: nat, j: nat)
    requires j < k
    ensures Reads(s, p, k)[j..] == [Read(READ_COMMAND, ReadAnswer(s, p + j))] + Reads(s, p, k)[j + 1..]
    ensures j + 1 == k ==> Reads(s, p, k)[j + 1..] == []
  {
  }

  lemma AttemptStep(frame: seq<byte>, j: nat, op: Op)
    requires IsFrame(frame) && Len(frame) < FIFO_LEN
    requires j == 0 ==> op.Write? && op.tx == Wrap(frame)
    requires Step(if j == 0 then Armed else Resend(frame, j), op) != Broken
    ensures op.Write? && op.tx == Wrap(frame)
    ensures Step(if j == 0 then Armed else Resend(frame, j), op) == Waiting(Attempt(frame, j))
  {
  }

  lemma AfterAttempt(frame: seq<byte>, j: nat, op: Op)
    requires Step(Receiving(Attempt(frame, j)), op) != Broken
    ensures op.Read?
    ensures Step(Receiving(Attempt(frame, j)), op)
         == if Good(op.response) || j + 1 == RETRY then Restore else Resend(frame, j + 1)
  {
  }

  lemma {:induction false} ParseRetries(frame: seq<byte>, ops: seq<Op>, s: Slave, p: nat, j: nat) returns (n: nat)
    requires IsFrame(frame) && Len(frame) < FIFO_LEN && j < RETRY
    requires Observe(if j == 0 then Armed else Resend(frame, j), ops).Idle? && Agrees(s, p + 2 * j, ops)
    requires j == 0 ==> ops != [] && ops[0].Write? && ops[0].tx == Wrap(frame)
    requires forall i :: 0 <= i < j ==> !Good(ReadAnswer(s, p + 1 + i * 2))
    ensures var k := Attempts(s, p + 1, 2);
            && j < k && n <= |ops|
            && ops[..n] == Rounds(Repeat(frame, k - j), COMMAND_TIMEOUT, s, p + 2 * j) + [Select(0)]
            && Agrees(s, p + 2 * k, ops[n..])
    decreases RETRY - j
  {
    hide Attempts, ReadAnswer, Good, Step, Observe, Wrap, Rounds, Repeat, Len, Agrees;
    var start := if j == 0 then Armed else Resend(frame, j);
    var q, k := p + 2 * j, Attempts(s, p + 1, 2);
    FirstStep(start, ops);
    AttemptStep(frame, j, ops[0]);
    TakeRound(start, Attempt(frame, j), ops, s, q);
    AfterAttempt(frame, j, ops[2]);
    assert ops[2] == ops[..3][2] == Read(READ_COMMAND, ReadAnswer(s, q + 1)) && q + 1 == p + 1 + j * 2;
    FrontRound(frame, if k > j then k - j else 1, s, q);
    if Good(ops[2].response) || j + 1 == RETRY {
      AttemptsUnique(s, p + 1, 2, j + 1);
      FirstStep(Restore, ops[3..]);
      RestoreStep(ops[3]);
      NothingToRead(s, q + 2, ops[3..]);
      n := 4;
      assert ops[..4] == ops[..3] + [ops[3]] && ops[3..][1..] == ops[4..];
      NoRepeat(frame, s, q + 2);
      assert Round(frame, COMMAND_TIMEOUT, s, q) + [] == Round(frame, COMMAND_TIMEOUT, s, q);
    } else {
      var n1 := ParseRetries(frame, ops[3..], s, p, j + 1);
      n := n1 + 3;
      assert ops[..n] == ops[..3] + ops[3..][..n1];
      assert ops[3..][n1..] == ops[n..];
    }
  }

  lemma FrontRound(frame: seq<byte>, k: nat, s: Slave, q: nat)
    requires k > 0
    ensures Rounds(Repeat(frame, k), COMMAND_TIMEOUT, s, q)
         == Round(frame, COMMAND_TIMEOUT, s, q) + Rounds(Repeat(frame, k - 1), COMMAND_TIMEOUT, s, q + 2)
  {
    hide Round;
    assert Repeat(frame, k)[1..] == Repeat(frame, k - 1);
  }

  lemma NoRepeat(frame: seq<byte>, s: Slave, q: nat)
    ensures Rounds(Repeat(frame, 0), COMMAND_TIMEOUT, s, q) == []
  {
  }

  lemma RestoreStep(op: Op)
    requires Step(Restore, op) != Broken
    ensures op == Select(0)
  {
  }

  lemma NothingToRead(s: Slave, q: nat, ops: seq<Op>)
    requires Agrees(s, q, ops) && ops != [] && ops[0].Select?
    ensures Agrees(s, q, ops[1..])
  {
  }

  // ---------------------------------------------------------------- fragments

  /** Frames i, i + 1, ... of one fragmented command. */
  predicate Chain(frames: seq<seq<byte>>, i: nat) {
    && frames != [] && IsFrame(frames[0])
    && (forall j :: 0 <= j < |frames| ==>
          && IsFrame(frames[j]) && Padded(frames[j]) && frames[j][..2] == frames[0][..2]
          && (Len(frames[j]) == FIFO_LEN <==> j < |frames| - 1))
    && Len(frames[|frames| - 1]) < FIFO_LEN
    && (i + |frames| - 1) * FIFO_LEN + Len(frames[|frames| - 1]) <= DATA_LEN
  }

  function PieceMon(i: nat, previous: seq<byte>): Mon {
    if i == 0 then Armed else NextPiece(previous, i * FIFO_LEN)
  }

  lemma PieceStep(i: nat, previous: seq<byte>, op: Op)
    requires Step(PieceMon(i, previous), op) != Broken
    requires i == 0 ==> op.Write? && |op.tx| == FRAME_SIZE + 2 && Len(op.tx[2..]) == FIFO_LEN
    ensures op.Write? && IsWrapped(op.tx)
    ensures var f := op.tx[2..];
            && Len(f) <= FIFO_LEN && i * FIFO_LEN + Len(f) <= DATA_LEN && Padded(f)
            && (i > 0 ==> |previous| == FRAME_SIZE && f[..2] == previous[..2])
            && (i == 0 ==> Result(f) != DATA_READ)
            && Step(PieceMon(i, previous), op) == Waiting(Piece(f, i * FIFO_LEN))
  {
  }

  lemma AfterPiece(frame: seq<byte>, i: nat, op: Op)
    requires IsFrame(frame) && Step(Receiving(Piece(frame, i * FIFO_LEN)), op) != Broken
    ensures Step(Receiving(Piece(frame, i * FIFO_LEN)), op)
         == if Len(frame) < FIFO_LEN then Idle(1) else PieceMon(i + 1, frame)
  {
  }

  lemma {:induction false} ParsePieces(ops: seq<Op>, s: Slave, p: nat, i: nat, previous: seq<byte>)
    returns (frames: seq<seq<byte>>, n: nat)
    requires Observe(PieceMon(i, previous), ops).Idle? && Agrees(s, p, ops)
    requires i == 0 ==> ops != [] && ops[0].Write? && |ops[0].tx| == FRAME_SIZE + 2 && Len(ops[0].tx[2..]) == FIFO_LEN
    ensures Chain(frames, i) && n <= |ops|
    ensures i > 0 ==> |previous| == FRAME_SIZE && frames[0][..2] == previous[..2]
    ensures i == 0 ==> Result(frames[0]) != DATA_READ && Len(frames[0]) == FIFO_LEN
    ensures ops[..n] == Rounds(frames, FRAGMENT_TIMEOUT, s, p)
    ensures Agrees(s, p + 2 * |frames|, ops[n..])
    decreases |ops|
  {
    hide Step, Observe, Padded, Len, Agrees, Round, Result;
    FirstStep(PieceMon(i, previous), ops);
    PieceStep(i, previous, ops[0]);
    var f := ops[0].tx[2..];
    TakeRound(PieceMon(i, previous), Piece(f, i * FIFO_LEN), ops, s, p);
    AfterPiece(f, i, ops[2]);
    if Len(f) < FIFO_LEN {
      frames, n := [f], 3;
      assert frames[1..] == [];
    } else {
      var rest, n1 := ParsePieces(ops[3..], s, p + 2, i + 1, f);
      frames, n := [f] + rest, n1 + 3;
      assert frames[1..] == rest;
      assert ops[..n] == ops[..3] + ops[3..][..n1] && ops[3..][n1..] == ops[n..];
      assert forall j :: 0 < j < |frames| ==> frames[j] == rest[j - 1];
    }
  }

  function DataOf(frames: seq<seq<byte>>): seq<byte>
    requires forall j :: 0 <= j < |frames| ==> IsFrame(frames[j]) && Len(frames[j]) <= FIFO_LEN
  {
    if frames == [] then []
    else
      var f := frames[0];
      assert IsFrame(f) && Len(f) <= FIFO_LEN;
      f[HEADER_SIZE..HEADER_SIZE + Len(f)] + DataOf(frames[1..])
  }

  lemma {:induction false} DataAt(frames: seq<seq<byte>>, k: nat)
    requires forall j :: 0 <= j < |frames| ==> IsFrame(frames[j]) && Len(frames[j]) <= FIFO_LEN
    requires forall j :: 0 <= j < |frames| - 1 ==> IsFrame(frames[j]) && Len(frames[j]) == FIFO_LEN
    requires k < |frames| && IsFrame(frames[k]) && IsFrame(frames[|frames| - 1])
    ensures |DataOf(frames)| == (|frames| - 1) * FIFO_LEN + Len(frames[|frames| - 1])
    ensures k * FIFO_LEN + Len(frames[k]) <= |DataOf(frames)|
    ensures DataOf(frames)[k * FIFO_LEN..k * FIFO_LEN + Len(frames[k])]
         == frames[k][HEADER_SIZE..HEADER_SIZE + Len(frames[k])]
  {
    hide Len;
    var f, rest := frames[0], frames[1..];
    assert IsFrame(f) && Len(f) <= FIFO_LEN;
    var d := f[HEADER_SIZE..HEADER_SIZE + Len(f)];
    if |frames| == 1 {
      assert DataOf(frames) == d + [];
    } else {
      assert rest[|rest| - 1] == frames[|frames| - 1];
      DataAt(rest, if k == 0 then 0 else k - 1);
      assert DataOf(frames) == d + DataOf(rest);
      if k > 0 {
        var a, n := (k - 1) * FIFO_LEN, Len(frames[k]);
        ShiftedSlice(d, DataOf(rest), a, a + n);
        assert FIFO_LEN + a == k * FIFO_LEN;
      }
    }
  }

  lemma ShiftedSlice(d: seq<byte>, e: seq<byte>, a: nat, b: nat)
    requires a <= b <= |e|
    ensures (d + e)[|d| + a..|d| + b] == e[a..b]
  {
  }

  /** A padded frame is determined by its header fields and its data. */
  lemma SameFrame(f: seq<byte>, g: seq<byte>)
    requires IsFrame(f) && IsFrame(g) && Padded(f) && Padded(g)
    requires Result(f) == Result(g) && CmdId(f) == CmdId(g) && Len(f) == Len(g) <= FIFO_LEN
    requires f[HEADER_SIZE..HEADER_SIZE + Len(f)] == g[HEADER_SIZE..HEADER_SIZE + Len(g)]
    ensures f == g
  {
    HeaderIsItsFields(f);
    HeaderIsItsFields(g);
    var n := Len(f);
    forall j | 0 <= j < FRAME_SIZE
      ensures f[j] == g[j]
    {
      if j < HEADER_SIZE {
        assert f[..HEADER_SIZE][j] == g[..HEADER_SIZE][j];
      } else if j < HEADER_SIZE + n {
        assert f[HEADER_SIZE..HEADER_SIZE + n][j - HEADER_SIZE] == g[HEADER_SIZE..HEADER_SIZE + n][j - HEADER_SIZE];
      }
    }
  }

  /** The data of a chain, and where each frame's share of it lies. */
  lemma ChainData(frames: seq<seq<byte>>, k: nat)
    requires Chain(frames, 0) && k < |frames|
    ensures forall j :: 0 <= j < |frames| ==> IsFrame(frames[j]) && Len(frames[j]) <= FIFO_LEN
    ensures |DataOf(frames)| == (|frames| - 1) * FIFO_LEN + Len(frames[|frames| - 1]) <= DATA_LEN
    ensures Len(frames[|frames| - 1]) < FIFO_LEN
    ensures k * FIFO_LEN + Len(frames[k]) <= |DataOf(frames)|
    ensures DataOf(frames)[k * FIFO_LEN..k * FIFO_LEN + Len(frames[k])]
         == frames[k][HEADER_SIZE..HEADER_SIZE + Len(frames[k])]
  {
    hide DataOf, Len, Padded;
    DataAt(frames, k);
  }

  /** Every chain of frames is the encoding of a message. */
  lemma ChainIsEncoding(frames: seq<seq<byte>>) returns (m: seq<byte>)
    requires Chain(frames, 0) && |frames| >= 2 && Result(frames[0]) != DATA_READ
    ensures IsMessage(m) && KindOf(m).Fragmented? && Encode(m) == frames
  {
    hide Chain, DataOf, Request, Encode, Payload, Result, CmdId, Len;
    var c := |frames| - 1;
    ChainData(frames, c);
    var data := DataOf(frames);
    m := Request(Result(frames[0]), CmdId(frames[0]), data);
    RequestFields(Result(frames[0]), CmdId(frames[0]), data);
    assert Payload(m) == data && Result(m) == Result(frames[0]) && CmdId(m) == CmdId(frames[0]);
    assert Len(m) == |Payload(m)| == c * FIFO_LEN + Len(frames[c]);
    assert Len(m) / FIFO_LEN == c && Len(m) % FIFO_LEN == Len(frames[c]);
    forall k | 0 <= k <= c
      ensures Encode(m)[k] == frames[k]
    {
      ChainData(frames, k);
      ChainFrame(frames, m, k);
    }
  }

  lemma ChainFrame(frames: seq<seq<byte>>, m: seq<byte>, k: nat)
    requires Chain(frames, 0) && k < |frames| && IsFrame(frames[k])
    requires IsMessage(m) && Len(m) / FIFO_LEN == |frames| - 1 && Len(m) % FIFO_LEN == Len(frames[|frames| - 1])
    requires Result(m) == Result(frames[0]) && CmdId(m) == CmdId(frames[0])
    requires k * FIFO_LEN + Len(frames[k]) <= Len(m)
    requires Payload(m)[k * FIFO_LEN..k * FIFO_LEN + Len(frames[k])]
          == frames[k][HEADER_SIZE..HEADER_SIZE + Len(frames[k])]
    ensures Encode(m)[k] == frames[k]
  {
    hide Encode, Payload, Len;
    FragmentFields(m, k);
    assert frames[k][0] == frames[k][..2][0] == frames[0][..2][0] == frames[0][0];
    assert frames[k][1] == frames[k][..2][1] == frames[0][..2][1] == frames[0][1];
    SameFrame(Encode(m)[k], frames[k]);
  }

  // ---------------------------------------------------------------- whole traces

  lemma SelectFirst(sel: int, op: Op)
    requires Step(Idle(sel), op) != Broken
    ensures op == Select(0) || op == Select(1)
    ensures Step(Idle(sel), op) == if op == Select(0) then Reading(0) else Armed
  {
  }

  lemma ArmedFrame(op: Op)
    requires Step(Armed, op) != Broken
    ensures op.Write? && IsWrapped(op.tx) && Result(op.tx[2..]) != DATA_READ && Len(op.tx[2..]) <= FIFO_LEN
  {
  }

  /** The head of an accepted trace is one send. */
  lemma ParseSend(ops: seq<Op>, s: Slave, p: nat, sel: int) returns (m: seq<byte>, n: nat)
    requires ops != [] && Observe(Idle(sel), ops).Idle? && Agrees(s, p, ops)
    ensures IsMessage(m) && 0 < n <= |ops| && ops[..n] == SendOps(m, s, p)
    ensures Agrees(s, p + SendTransfers(m, s, p), ops[n..])
  {
    hide Step, Observe, Agrees, Attempts, Rounds, Reads, Len, Result, ReadAnswer, RxFrame;
    hide SendOps, SendTransfers, Chain, KindOf, Encode, Request, Wrap;
    var ops1 := ops[1..];
    ObserveHead(Idle(sel), ops);
    if Step(Idle(sel), ops[0]) == Broken {
      BrokenForever(ops1);
    }
    SelectFirst(sel, ops[0]);
    AgreesHead(s, p, ops);
    var n1;
    if ops[0] == Select(0) {
      m := Request(DATA_READ, 0, []);
      RequestFields(DATA_READ, 0, []);
      n1 := ParseReads(ops1, s, p, 0);
      DataReadShape(m, s, p);
    } else {
      FirstStep(Armed, ops1);
      ArmedFrame(ops1[0]);
      var f := ops1[0].tx[2..];
      if Len(f) < FIFO_LEN {
        m := RawMessage(f);
        n1 := ParseRetries(f, ops1, s, p, 0);
        ShortShape(m, s, p);
      } else {
        var frames;
        frames, n1 := ParsePieces(ops1, s, p, 0, []);
        ChainIsLong(frames);
        m := ChainIsEncoding(frames);
        FragmentedShape(m, s, p);
      }
    }
    n := n1 + 1;
    assert ops[..n] == [ops[0]] + ops1[..n1] && ops1[n1..] == ops[n..];
  }

  lemma ChainIsLong(frames: seq<seq<byte>>)
    requires Chain(frames, 0) && Len(frames[0]) == FIFO_LEN
    ensures |frames| >= 2
  {
  }

  lemma DataReadShape(m: seq<byte>, s: Slave, p: nat)
    requires IsMessage(m) && Result(m) == DATA_READ
    ensures var k := Attempts(s, p, 1);
            && SendOps(m, s, p) == [Select(0)]
                 + (Reads(s, p, k)[0..] + [Write(Wrap(RxFrame(ReadAnswer(s, p + k - 1))), s.ok(p + k))])
            && p + SendTransfers(m, s, p) == p + k + 1
  {
    hide Attempts, RxFrame, Wrap;
    assert Reads(s, p, Attempts(s, p, 1))[0..] == Reads(s, p, Attempts(s, p, 1));
  }

  lemma ShortShape(m: seq<byte>, s: Slave, p: nat)
    requires IsMessage(m) && KindOf(m).Short?
    ensures var k := Attempts(s, p + 1, 2);
            && SendOps(m, s, p) == [Select(1)]
                 + (Rounds(Repeat(m[..FRAME_SIZE], k - 0), COMMAND_TIMEOUT, s, p + 2 * 0) + [Select(0)])
            && p + SendTransfers(m, s, p) == p + 2 * k
  {
    hide Attempts, Rounds;
  }

  lemma FragmentedShape(m: seq<byte>, s: Slave, p: nat)
    requires IsMessage(m) && KindOf(m).Fragmented?
    ensures SendOps(m, s, p) == [Select(1)] + Rounds(Encode(m), FRAGMENT_TIMEOUT, s, p)
    ensures p + SendTransfers(m, s, p) == p + 2 * |Encode(m)|
  {
    hide Rounds;
  }

  lemma ObserveHead(m: Mon, ops: seq<Op>)
    requires ops != []
    ensures Observe(m, ops) == Observe(Step(m, ops[0]), ops[1..])
  {
  }

  lemma RawMessage(f: seq<byte>) returns (m: seq<byte>)
    requires IsFrame(f) && Len(f) < FIFO_LEN && Result(f) != DATA_READ
    ensures IsMessage(m) && KindOf(m).Short? && m[..FRAME_SIZE] == f
  {
    m := f + Zeros(MESSAGE_SIZE - FRAME_SIZE);
    assert m[..HEADER_SIZE] == f[..HEADER_SIZE];
    SameHeader(m, f[..HEADER_SIZE]);
    SameHeader(f, f[..HEADER_SIZE]);
  }

  lemma {:induction false} AcceptedIsSession(ops: seq<Op>, s: Slave, p: nat, sel: int) returns (ms: seq<seq<byte>>)
    requires Observe(Idle(sel), ops).Idle? && Agrees(s, p, ops)
    ensures forall i :: 0 <= i < |ms| ==> IsMessage(ms[i])
    ensures Session(ms, s, p) == ops
    decreases |ops|
  {
    hide SendOps, SendTransfers, Step, Observe, Agrees, SelectorAfter;
    if ops == [] {
      ms := [];
    } else {
      var m, n := ParseSend(ops, s, p, sel);
      assert ops == ops[..n] + ops[n..];
      ObserveAppend(Idle(sel), ops[..n], ops[n..]);
      SendIsObserved(m, s, p, sel);
      var rest := AcceptedIsSession(ops[n..], s, p + SendTransfers(m, s, p), SelectorAfter(m));
      ms := [m] + rest;
      assert ms[1..] == rest;
    }
  }

  // ---------------------------------------------------------------- a slave for any trace

  /** The k-th transfer of a trace, or some other operation if there are not that many. */
  function TransferAt(ops: seq<Op>, k: nat): Op
    decreases |ops|
  {
    if ops == [] then Select(0)
    else if ops[0].Write? || ops[0].Read? then if k == 0 then ops[0] else TransferAt(ops[1..], k - 1)
    else TransferAt(ops[1..], k)
  }

  function OkOf(op: Op): bool {
    (op.Write? && op.ok) || (op.Read? && op.response.Shifted?)
  }

  function ByteOf(op: Op, j: nat): byte {
    if op.Read? && op.response.Shifted? && j < |op.response.rx| then op.response.rx[j] else 0
  }

  function SlaveOf(ops: seq<Op>): Slave {
    Slave((k: nat) => OkOf(TransferAt(ops, k)), (k: nat, j: nat) => ByteOf(TransferAt(ops, k), j))
  }

  lemma {:induction false} SomeSlaveAgrees(m: Mon, ops: seq<Op>, s: Slave, p: nat)
    requires Observe(m, ops) != Broken
    requires forall k: nat :: s.ok(p + k) == OkOf(TransferAt(ops, k))
    requires forall k: nat, j: nat :: s.out(p + k, j) == ByteOf(TransferAt(ops, k), j)
    ensures Agrees(s, p, ops)
    decreases |ops|
  {
    hide Step;
    if ops != [] {
      var op, rest := ops[0], ops[1..];
      if Step(m, op) == Broken {
        BrokenForever(rest);
      }
      if op.Write? || op.Read? {
        assert TransferAt(ops, 0) == op;
        assert s.ok(p + 0) == OkOf(TransferAt(ops, 0));
        forall k: nat
          ensures s.ok(p + 1 + k) == OkOf(TransferAt(rest, k))
        {
          assert s.ok(p + (k + 1)) == OkOf(TransferAt(ops, k + 1));
        }
        forall k: nat, j: nat
          ensures s.out(p + 1 + k, j) == ByteOf(TransferAt(rest, k), j)
        {
          assert s.out(p + (k + 1), j) == ByteOf(TransferAt(ops, k + 1), j);
        }
        if op.Read? {
          ReadHasItsSize(m, op);
          forall j: nat
            ensures s.out(p, j) == ByteOf(op, j)
          {
            assert s.out(p + 0, j) == ByteOf(TransferAt(ops, 0), j);
          }
          assert op.response == ReadAnswer(s, p);
        }
        SomeSlaveAgrees(Step(m, op), rest, s, p + 1);
      } else {
        forall k: nat
          ensures TransferAt(ops, k) == TransferAt(rest, k)
        {
        }
        SomeSlaveAgrees(Step(m, op), rest, s, p);
      }
    }
  }

  lemma ReadHasItsSize(m: Mon, op: Op)
    requires Step(m, op) != Broken && op.Read?
    ensures IsReadResponse(op.response)
  {
  }

  ghost predicate IsSession(ops: seq<Op>) {
    exists ms, s :: (forall i :: 0 <= i < |ms| ==> IsMessage(ms[i])) && Session(ms, s, 0) == ops
  }

  /** The exact language of the bus: a list of operations is the trace of some list of messages sent to
      some slave if and only if the observer accepts it and ends idle. */
  lemma SessionsAreExactlyTheAcceptedTraces(ops: seq<Op>)
    ensures IsSession(ops) <==> Observe(Idle(0), ops).Idle?
  {
    hide Session, Step, Observe;
    if Observe(Idle(0), ops).Idle? {
      var s := SlaveOf(ops);
      SomeSlaveAgrees(Idle(0), ops, s, 0);
      var ms := AcceptedIsSession(ops, s, 0, 0);
      assert Session(ms, s, 0) == ops;
    } else if IsSession(ops) {
      var ms, s :| (forall i :: 0 <= i < |ms| ==> IsMessage(ms[i])) && Session(ms, s, 0) == ops;
      SessionIsObserved(ms, s, 0, 0);
    }
  }

  // ---------------------------------------------------------------- unfinished traces

  /** What holds of every state the observer reaches: pending frames have their size, and pieces leave
      room for what is still to come. */
  predicate Sound(m: Mon) {
    match m
    case Resend(frame, _) => IsFrame(frame)
    case NextPiece(previous, sofar) => IsFrame(previous) && sofar <= DATA_LEN
    case Waiting(x) => SoundExchange(x)
    case Receiving(x) => SoundExchange(x)
    case Broken => false
    case _ => true
  }

  predicate SoundExchange(x: Exchange) {
    IsFrame(x.frame) && (x.Piece? ==> Len(x.frame) <= FIFO_LEN && x.sofar + Len(x.frame) <= DATA_LEN)
  }

  lemma StepKeepsSound(m: Mon, op: Op)
    requires Sound(m) && Step(m, op) != Broken
    ensures Sound(Step(m, op))
  {
    hide Good, RxFrame, Wrap, Padded, Len;
  }

  lemma {:induction false} ObservedIsSound(m: Mon, ops: seq<Op>)
    requires Sound(m) && Observe(m, ops) != Broken
    ensures Sound(Observe(m, ops))
    decreases |ops|
  {
    hide Step, Sound;
    if ops != [] {
      if Step(m, ops[0]) == Broken {
        BrokenForever(ops[1..]);
      }
      StepKeepsSound(m, ops[0]);
      ObservedIsSound(Step(m, ops[0]), ops[1..]);
    }
  }

  const ACKNOWLEDGED: Op := Read(READ_COMMAND, Shifted(Zeros(READ_SIZE)[2 := SUCCESS]))

  lemma AcknowledgedIsGood()
    ensures ACKNOWLEDGED.cmd == READ_COMMAND && Good(ACKNOWLEDGED.response) && IsReadResponse(ACKNOWLEDGED.response)
  {
  }

  /** The empty piece that ends a chain. */
  function LastPiece(previous: seq<byte>): (f: seq<byte>)
    requires IsFrame(previous)
    ensures IsFrame(f) && Len(f) == 0 && f[..2] == previous[..2] && Padded(f)
  {
    var f := previous[..2] + Zeros(FRAME_SIZE - 2);
    assert f[2] == f[3] == 0;
    f
  }

  /** The next operation on the shortest way to the end of the send. */
  function Finishing(m: Mon): Op
    requires Sound(m)
  {
    match m
    case Reading(_) => ACKNOWLEDGED
    case Echo(frame) => Write(Wrap(frame), true)
    case Armed => Write(Wrap(Zeros(FRAME_SIZE)), true)
    case Resend(frame, _) => Write(Wrap(frame), true)
    case NextPiece(previous, _) => Write(Wrap(LastPiece(previous)), true)
    case Waiting(x) => Wait(Timeout(x))
    case Receiving(_) => ACKNOWLEDGED
    case _ => Select(0)
  }

  /** Operations still needed on that way. */
  function Distance(m: Mon): nat {
    match m
    case Idle(_) | Broken => 0
    case Echo(_) | Restore => 1
    case Reading(_) => 2
    case Receiving(x) => if x.Piece? && |x.frame| == FRAME_SIZE && Len(x.frame) >= FIFO_LEN then 5 else 2
    case Waiting(x) => if x.Piece? && |x.frame| == FRAME_SIZE && Len(x.frame) >= FIFO_LEN then 6 else 3
    case Resend(_, _) => 4
    case NextPiece(_, _) => 4
    case Armed => 4
  }

  lemma FinishingStep(m: Mon)
    requires Sound(m) && !m.Idle?
    ensures Step(m, Finishing(m)) != Broken && Distance(Step(m, Finishing(m))) < Distance(m)
  {
    AcknowledgedIsGood();
    hide Good, RxFrame, Padded;
  }

  /** Every sound state can be brought to the end of its send. */
  lemma {:induction false} Finish(m: Mon) returns (more: seq<Op>)
    requires Sound(m)
    ensures Observe(m, more).Idle?
    decreases Distance(m)
  {
    hide Step, Sound, Finishing, Distance;
    if m.Idle? {
      more := [];
    } else {
      FinishingStep(m);
      StepKeepsSound(m, Finishing(m));
      var rest := Finish(Step(m, Finishing(m)));
      more := [Finishing(m)] + rest;
      assert more[1..] == rest;
    }
  }

  ghost predicate IsPartOfSession(ops: seq<Op>) {
    exists more :: IsSession(ops + more)
  }

  /** The language of unfinished sessions: a list of operations can be continued to a session of the
      driver if and only if the observer has not refused it. */
  lemma UnbrokenTracesArePartsOfSessions(ops: seq<Op>)
    ensures IsPartOfSession(ops) <==> Observe(Idle(0), ops) != Broken
  {
    hide Step, Observe, IsSession, Sound;
    if Observe(Idle(0), ops) != Broken {
      IdleIsSound();
      ObservedIsSound(Idle(0), ops);
      var more := Finish(Observe(Idle(0), ops));
      ObserveAppend(Idle(0), ops, more);
      SessionsAreExactlyTheAcceptedTraces(ops + more);
    } else if IsPartOfSession(ops) {
      var more :| IsSession(ops + more);
      SessionsAreExactlyTheAcceptedTraces(ops + more);
      ObserveAppend(Idle(0), ops, more);
      BrokenForever(more);
    }
  }

  lemma IdleIsSound()
    ensures Sound(Idle(0))
  {
  }
}
