/** The bus in plain numbers: what each send puts on it and what comes back, byte by byte and transfer by
    transfer, without the names under which the driver and its specification compute it. */
module BusBytes {
  import opened Layout
  import opened Framing
  import opened Wire

  /** Transfer k succeeds and shifts in 0x55 behind its first two bytes. */
  predicate Acked(s: Slave, k: nat) {
    s.ok(k) && s.out(k, 2) == 0x55
  }

  /** Which of three reads ends a retry loop. */
  function OfThree(s: Slave, first: nat, stride: nat): nat {
    if Acked(s, first) then 1 else if Acked(s, first + stride) then 2 else 3
  }

  /** Byte j of the frame that a 36-byte read brings in transfer k; the buffer was cleared before. */
  function FrameByte(s: Slave, k: nat, j: nat): byte {
    if s.ok(k) then s.out(k, j + 2) else 0
  }

  /** Every operation of the driver: two values of the selector, 34-byte writes behind 02 00, waits of 200
      or 500 ticks, and 36-byte reads behind 03 00. */
  predicate InFormat(op: Op) {
    match op
    case Select(value) => value == 0 || value == 1
    case Write(tx, _) => |tx| == 34 && tx[0] == 0x02 && tx[1] == 0x00
    case Wait(timeout) => timeout == 200 || timeout == 500
    case Read(cmd, response) =>
      && |cmd| == 36 && cmd[0] == 0x03 && (forall j :: 1 <= j < 36 ==> cmd[j] == 0)
      && (response.Shifted? ==> |response.rx| == 36)
  }

  predicate AllInFormat(ops: seq<Op>) {
    forall i :: 0 <= i < |ops| ==> InFormat(ops[i])
  }

  // ---------------------------------------------------------------- messages and answers

  lemma MessageInBytes(m: seq<byte>)
    ensures IsMessage(m) <==> |m| == 2052 && m[2] as int + 256 * m[3] as int <= 2048
    ensures IsMessage(m) ==>
      var len := m[2] as int + 256 * m[3] as int;
      && Result(m) == m[0] && CmdId(m) == m[1] && Len(m) == len && Payload(m) == m[4..4 + len]
      && KindOf(m) == if m[0] == 0xaa then DataRead else if len < 28 then Short else Fragmented
  {
  }

  lemma RequestInBytes(result: byte, id: byte, payload: seq<byte>)
    requires |payload| <= 2048
    ensures var m := Request(result, id, payload);
            && |m| == 2052 && m[0] == result && m[1] == id
            && m[2] as int + 256 * m[3] as int == |payload|
            && m[4..4 + |payload|] == payload && forall j :: 4 + |payload| <= j < 2052 ==> m[j] == 0
  {
    RequestFields(result, id, payload);
    var m := Request(result, id, payload);
    MessageInBytes(m);
    assert Payload(m) == payload;
  }

  lemma AnswerInBytes(s: Slave, k: nat)
    ensures var r := ReadAnswer(s, k);
            && (r.Shifted? <==> s.ok(k))
            && (r.Shifted? ==> |r.rx| == 36 && forall j :: 0 <= j < 36 ==> r.rx[j] == s.out(k, j))
            && (Good(r) <==> Acked(s, k))
            && IsFrameOf(RxFrame(r), s, k)
  {
    var r := ReadAnswer(s, k);
    if r.Shifted? {
      assert forall j :: 0 <= j < 36 ==> r.rx[j] == s.out(k, j);
    }
  }

  lemma AttemptsInBytes(s: Slave, first: nat, stride: nat)
    ensures Attempts(s, first, stride) == OfThree(s, first, stride)
  {
    AnswerInBytes(s, first);
    AnswerInBytes(s, first + stride);
  }

  lemma ReadInFormat(s: Slave, k: nat)
    ensures InFormat(Read(READ_COMMAND, ReadAnswer(s, k)))
  {
  }

  // ---------------------------------------------------------------- the three kinds of send

  /** What a read puts into the trace and a reply into the caller's message. */
  predicate IsReadOf(op: Op, s: Slave, k: nat) {
    InFormat(op) && op.Read? && op.response == ReadAnswer(s, k)
  }

  predicate IsFrameOf(f: seq<byte>, s: Slave, k: nat) {
    |f| == 32 && forall j :: 0 <= j < 32 ==> f[j] == FrameByte(s, k, j)
  }

  predicate IsReplyOf(r: seq<byte>, s: Slave, k: nat) {
    |r| == 2052 && IsFrameOf(r[..32], s, k) && forall j :: 32 <= j < 2052 ==> r[j] == 0
  }

  /** A message whose first byte is 0xaa: one to three reads up to the first 0x55, and the frame of the
      last one written back. */
  lemma DataReadInBytes(m: seq<byte>, s: Slave, p: nat)
    requires IsMessage(m) && m[0] == 0xaa
    ensures var ops, k := SendOps(m, s, p), OfThree(s, p, 1);
            && |ops| == k + 2 && ops[0] == Select(0)
            && (forall j :: 1 <= j <= k ==> IsReadOf(ops[j], s, p + j - 1))
            && InFormat(ops[k + 1]) && ops[k + 1].Write? && ops[k + 1].ok == s.ok(p + k)
            && IsFrameOf(ops[k + 1].tx[2..], s, p + k - 1)
    ensures SendTransfers(m, s, p) == OfThree(s, p, 1) + 1
    ensures IsReplyOf(Reply(m, s, p), s, p + OfThree(s, p, 1) - 1)
  {
    MessageInBytes(m);
    hide KindOf, Len, SendOps, Attempts, OfThree, IsReadOf, IsFrameOf, IsReplyOf, Reads, Reply, SendTransfers, LastRead;
    hide Tries, ReadAnswer, RxFrame, Wrap, IsMessage, InFormat;
    ReplyInBytes(m, s, p);
    TransfersInNumbers(m, s, p);
    DataReadShape(m, s, p);
    DataReadOps(s, p, Tries(m, s, p));
  }

  lemma DataReadOps(s: Slave, p: nat, k: nat)
    requires k > 0
    ensures var ops := [Select(0)] + Reads(s, p, k) + [Write(Wrap(RxFrame(ReadAnswer(s, p + k - 1))), s.ok(p + k))];
            && |ops| == k + 2
            && (forall j :: 1 <= j <= k ==> IsReadOf(ops[j], s, p + j - 1))
            && InFormat(ops[k + 1]) && IsFrameOf(ops[k + 1].tx[2..], s, p + k - 1)
  {
    hide InFormat, IsReadOf, IsFrameOf, ReadAnswer, RxFrame, Wrap, Reads;
    AnswerInBytes(s, p + k - 1);
    WrapInFormat(RxFrame(ReadAnswer(s, p + k - 1)), s.ok(p + k));
    var ops := [Select(0)] + Reads(s, p, k) + [Write(Wrap(RxFrame(ReadAnswer(s, p + k - 1))), s.ok(p + k))];
    forall j | 1 <= j <= k
      ensures IsReadOf(ops[j], s, p + j - 1)
    {
      ReadsAt(s, p, k, j - 1);
      ReadIsReadOf(s, p + j - 1);
      assert ops[j] == Reads(s, p, k)[j - 1];
    }
  }

  lemma ReadIsReadOf(s: Slave, k: nat)
    ensures IsReadOf(Read(READ_COMMAND, ReadAnswer(s, k)), s, k)
  {
    ReadInFormat(s, k);
    hide InFormat;
  }

  lemma ReplyInBytes(m: seq<byte>, s: Slave, p: nat)
    requires IsMessage(m)
    ensures IsReplyOf(Reply(m, s, p), s, LastRead(m, s, p))
  {
    hide LastRead, ReadAnswer, RxFrame;
    var f := RxFrame(ReadAnswer(s, LastRead(m, s, p)));
    AnswerInBytes(s, LastRead(m, s, p));
    assert Reply(m, s, p)[..32] == f;
  }

  lemma DataReadShape(m: seq<byte>, s: Slave, p: nat)
    requires IsMessage(m) && KindOf(m).DataRead?
    ensures var k := Tries(m, s, p);
            SendOps(m, s, p) == [Select(0)] + Reads(s, p, k)
                                + [Write(Wrap(RxFrame(ReadAnswer(s, p + k - 1))), s.ok(p + k))]
  {
    hide Attempts, Reads, Wrap, RxFrame, ReadAnswer;
  }

  lemma ReadsAt(s: Slave, p: nat, k: nat, j: nat)
    requires j < k
    ensures Reads(s, p, k)[j] == Read(READ_COMMAND, ReadAnswer(s, p + j))
  {
  }

  lemma WrapInFormat(f: seq<byte>, ok: bool)
    requires |f| == 32
    ensures InFormat(Write(Wrap(f), ok)) && Wrap(f)[2..] == f
  {
  }

  /** Round j of a send that starts at transfer p: write, wait, read. */
  predicate IsRoundAt(ops: seq<Op>, j: nat, frame: seq<byte>, ticks: nat, s: Slave, p: nat) {
    && 3 * j + 4 <= |ops|
    && ops[3 * j + 1] == Write([0x02, 0x00] + frame, s.ok(p + 2 * j))
    && ops[3 * j + 2] == Wait(ticks)
    && IsReadOf(ops[3 * j + 3], s, p + 2 * j + 1)
  }

  lemma RoundInBytes(frames: seq<seq<byte>>, timeout: nat, s: Slave, p: nat, before: Op, after: seq<Op>, j: nat)
    requires j < |frames|
    ensures IsRoundAt([before] + Rounds(frames, timeout, s, p) + after, j, frames[j], timeout, s, p)
  {
    RoundsAt(frames, timeout, s, p, j);
    ReadInFormat(s, p + 2 * j + 1);
    hide Rounds, ReadAnswer, InFormat;
    var rounds := Rounds(frames, timeout, s, p);
    var ops := [before] + rounds + after;
    assert ops[3 * j + 1] == rounds[3 * j] && ops[3 * j + 2] == rounds[3 * j + 1];
    assert ops[3 * j + 3] == rounds[3 * j + 2];
  }

  /** Transfers made, and the one whose answer is returned. */
  lemma TransfersInNumbers(m: seq<byte>, s: Slave, p: nat)
    requires IsMessage(m)
    ensures var k := Tries(m, s, p);
            if KindOf(m).DataRead? then SendTransfers(m, s, p) == k + 1 && LastRead(m, s, p) == p + k - 1
            else SendTransfers(m, s, p) == 2 * k && LastRead(m, s, p) == p + 2 * k - 1
    ensures Tries(m, s, p) == match KindOf(m)
                              case DataRead => OfThree(s, p, 1)
                              case Short => OfThree(s, p + 1, 2)
                              case Fragmented => Len(m) / 28 + 1
  {
    AttemptsInBytes(s, p, 1);
    AttemptsInBytes(s, p + 1, 2);
    hide OfThree, Attempts;
  }

  /** A shorter message than 28: its raw head, tried up to three times with a wait of 200 ticks. */
  lemma ShortInBytes(m: seq<byte>, s: Slave, p: nat)
    requires IsMessage(m) && m[0] != 0xaa && m[2] as int + 256 * m[3] as int < 28
    ensures var ops, k := SendOps(m, s, p), OfThree(s, p + 1, 2);
            && |ops| == 3 * k + 2 && ops[0] == Select(1) && ops[3 * k + 1] == Select(0)
            && (forall j :: 0 <= j < k ==> IsRoundAt(ops, j, m[..32], 200, s, p))
    ensures SendTransfers(m, s, p) == 2 * OfThree(s, p + 1, 2)
    ensures IsReplyOf(Reply(m, s, p), s, p + 2 * OfThree(s, p + 1, 2) - 1)
  {
    MessageInBytes(m);
    hide KindOf, Len, SendOps, Attempts, OfThree, IsReplyOf, Reply, SendTransfers, LastRead, Tries, Rounds, IsRoundAt;
    hide IsMessage;
    ReplyInBytes(m, s, p);
    TransfersInNumbers(m, s, p);
    ShortShape(m, s, p);
    var ops, k := SendOps(m, s, p), Tries(m, s, p);
    forall j | 0 <= j < k
      ensures IsRoundAt(ops, j, m[..32], 200, s, p)
    {
      RoundInBytes(Repeat(m[..32], k), COMMAND_TIMEOUT, s, p, Select(1), [Select(0)], j);
    }
  }

  lemma ShortShape(m: seq<byte>, s: Slave, p: nat)
    requires IsMessage(m) && KindOf(m).Short?
    ensures SendOps(m, s, p) == [Select(1)] + Rounds(Repeat(m[..32], Tries(m, s, p)), COMMAND_TIMEOUT, s, p)
                                + [Select(0)]
  {
    hide Attempts, Rounds;
  }

  /** Any other message: len / 28 + 1 frames with a wait of 500 ticks each, written once. Frame i repeats
      the first two bytes, says how much it carries, carries it and is zero behind. */
  lemma FragmentedInBytes(m: seq<byte>, s: Slave, p: nat)
    requires IsMessage(m) && m[0] != 0xaa && m[2] as int + 256 * m[3] as int >= 28
    ensures var ops, len := SendOps(m, s, p), m[2] as int + 256 * m[3] as int;
            && |ops| == 3 * (len / 28 + 1) + 1 && ops[0] == Select(1)
            && forall i :: 0 <= i <= len / 28 ==> IsRoundAt(ops, i, FragmentBytes(m, i), 500, s, p)
    ensures var c := (m[2] as int + 256 * m[3] as int) / 28 + 1;
            SendTransfers(m, s, p) == 2 * c && IsReplyOf(Reply(m, s, p), s, p + 2 * c - 1)
  {
    MessageInBytes(m);
    ReplyInBytes(m, s, p);
    var ops, c := SendOps(m, s, p), Len(m) / 28 + 1;
    hide Attempts, IsReplyOf, Rounds, IsRoundAt, Encode, FragmentBytes, Reply;
    forall i | 0 <= i < c
      ensures IsRoundAt(ops, i, FragmentBytes(m, i), 500, s, p)
    {
      PieceIsFragment(m, i);
      assert ops + [] == ops;
      RoundInBytes(Encode(m), FRAGMENT_TIMEOUT, s, p, Select(1), [], i);
    }
  }

  function FragmentBytes(m: seq<byte>, i: nat): seq<byte>
    requires |m| == 2052 && m[2] as int + 256 * m[3] as int <= 2048
    requires i <= (m[2] as int + 256 * m[3] as int) / 28
  {
    var len := m[2] as int + 256 * m[3] as int;
    var n := if i < len / 28 then 28 else len % 28;
    [m[0], m[1], n, 0] + m[4 + 28 * i..4 + 28 * i + n] + seq(28 - n, _ => 0)
  }

  lemma PieceIsFragment(m: seq<byte>, i: nat)
    requires IsMessage(m) && i <= (m[2] as int + 256 * m[3] as int) / 28
    ensures i < |Encode(m)| && Encode(m)[i] == FragmentBytes(m, i)
  {
    MessageInBytes(m);
    var n := FragmentLen(Len(m), i);
    assert n == (if i < Len(m) / 28 then 28 else Len(m) % 28);
    assert n % 256 == n && n / 256 == 0;
    assert Encode(m)[i] == Fragment(m, i);
    assert Zeros(FIFO_LEN - n) == seq(28 - n, _ => 0);
  }

  lemma RoundKinds(ops: seq<Op>, j: nat, frame: seq<byte>, ticks: nat, s: Slave, p: nat)
    requires IsRoundAt(ops, j, frame, ticks, s, p)
    ensures 3 * j + 4 <= |ops| && ops[3 * j + 1].Write? && ops[3 * j + 2].Wait? && ops[3 * j + 3].Read?
  {
  }

  lemma ReplySaysAcked(r: seq<byte>, s: Slave, k: nat)
    requires IsReplyOf(r, s, k)
    ensures |r| > 0 && (r[0] == 0x55 <==> Acked(s, k))
  {
    assert r[0] == r[..32][0] == FrameByte(s, k, 0);
  }

  /** The third attempt counts: if the reads of the first two bring no 0x55, there are exactly three
      writes, and the call succeeds if and only if the third read brings it. */
  lemma ThirdAttemptDecides(m: seq<byte>, s: Slave, p: nat)
    requires IsMessage(m) && m[0] != 0xaa && m[2] as int + 256 * m[3] as int < 28
    requires !Acked(s, p + 1) && !Acked(s, p + 3)
    ensures var ops := SendOps(m, s, p);
            && |ops| == 11
            && ops[0].Select? && ops[1].Write? && ops[2].Wait? && ops[3].Read?
            && ops[4].Write? && ops[5].Wait? && ops[6].Read?
            && ops[7].Write? && ops[8].Wait? && ops[9].Read? && ops[10].Select?
    ensures Reply(m, s, p)[0] == 0x55 <==> Acked(s, p + 5)
  {
    ShortInBytes(m, s, p);
    assert OfThree(s, p + 1, 2) == 3;
    hide SendOps, Reply, SendTransfers, IsRoundAt, OfThree, IsReplyOf, Acked;
    var ops := SendOps(m, s, p);
    RoundKinds(ops, 0, m[..32], 200, s, p);
    RoundKinds(ops, 1, m[..32], 200, s, p);
    RoundKinds(ops, 2, m[..32], 200, s, p);
    ReplySaysAcked(Reply(m, s, p), s, p + 5);
  }

  /** And so does the third read of a data read. */
  lemma ThirdReadDecides(m: seq<byte>, s: Slave, p: nat)
    requires IsMessage(m) && m[0] == 0xaa && !Acked(s, p) && !Acked(s, p + 1)
    ensures var ops := SendOps(m, s, p);
            |ops| == 5 && ops[1].Read? && ops[2].Read? && ops[3].Read? && ops[4].Write?
    ensures Reply(m, s, p)[0] == 0x55 <==> Acked(s, p + 2)
  {
    DataReadInBytes(m, s, p);
    assert OfThree(s, p, 1) == 3;
    hide SendOps, Reply, SendTransfers, IsReplyOf, Acked, OfThree, InFormat;
    ReplySaysAcked(Reply(m, s, p), s, p + 2);
  }

  // ---------------------------------------------------------------- every operation of a session

  lemma {:induction false} RoundsInFormat(frames: seq<seq<byte>>, timeout: nat, s: Slave, p: nat)
    requires forall i :: 0 <= i < |frames| ==> IsFrame(frames[i])
    requires timeout == 200 || timeout == 500
    ensures AllInFormat(Rounds(frames, timeout, s, p))
  {
    hide InFormat, Wrap, ReadAnswer;
    if frames != [] {
      assert IsFrame(frames[0]);
      RoundInFormat(frames[0], timeout, s, p);
      RoundsInFormat(frames[1..], timeout, s, p + 2);
    }
  }

  lemma RoundInFormat(frame: seq<byte>, timeout: nat, s: Slave, p: nat)
    requires IsFrame(frame) && (timeout == 200 || timeout == 500)
    ensures AllInFormat(Round(frame, timeout, s, p))
  {
    WrapInFormat(frame, s.ok(p));
    ReadInFormat(s, p + 1);
    hide Wrap, ReadAnswer;
  }

  lemma SendInFormat(m: seq<byte>, s: Slave, p: nat)
    requires IsMessage(m)
    ensures AllInFormat(SendOps(m, s, p))
  {
    hide Encode, Rounds, Attempts, RxFrame, Reads, InFormat, Wrap, ReadAnswer;
    SelectInFormat();
    match KindOf(m)
    case DataRead =>
      var k := Tries(m, s, p);
      ReadsInFormat(s, p, k);
      WrapInFormat(RxFrame(ReadAnswer(s, p + k - 1)), s.ok(p + k));
    case Short =>
      RoundsInFormat(Repeat(m[..FRAME_SIZE], Tries(m, s, p)), COMMAND_TIMEOUT, s, p);
    case Fragmented =>
      RoundsInFormat(Encode(m), FRAGMENT_TIMEOUT, s, p);
  }

  lemma SelectInFormat()
    ensures InFormat(Select(0)) && InFormat(Select(1))
  {
  }

  lemma ReadsInFormat(s: Slave, p: nat, k: nat)
    ensures AllInFormat(Reads(s, p, k))
  {
    hide InFormat, ReadAnswer;
    forall j | 0 <= j < k
      ensures InFormat(Reads(s, p, k)[j])
    {
      ReadInFormat(s, p + j);
    }
  }

  /** Every operation of every session is in format: in particular each write goes out behind 02 00 and
      each read behind 03 00. */
  lemma {:induction false} SessionInFormat(ms: seq<seq<byte>>, s: Slave, p: nat)
    requires forall i :: 0 <= i < |ms| ==> IsMessage(ms[i])
    ensures AllInFormat(Session(ms, s, p))
  {
    hide SendOps, SendTransfers, InFormat;
    if ms != [] {
      assert IsMessage(ms[0]);
      SessionInFormat(ms[1..], s, p + SendTransfers(ms[0], s, p));
      SendInFormat(ms[0], s, p);
    }
  }
}
