/** What the slave can recover: a reference receiver run over the frames that the driver puts out, and
    over those that really arrive. */
module Delivery {
  import opened Layout
  import opened Framing
  import opened Wire
  import opened BusBytes

  /** Both directions of the wire keep a frame intact: dropping the two command bytes of a write gives
      the frame back, and a frame that the slave places behind two bytes is what the driver reads. */
  lemma FrameRoundTrip(f: seq<byte>, s: Slave, k: nat)
    requires IsFrame(f)
    requires s.ok(k) && forall j: nat :: j < FRAME_SIZE ==> s.out(k, j + 2) == f[j]
    ensures FramesOf([Write(Wrap(f), true)]) == [f]
    ensures RxFrame(ReadAnswer(s, k)) == f
  {
    OneFrame(f, true);
    assert RxFrame(ReadAnswer(s, k)) == ReadAnswer(s, k).rx[2..2 + FRAME_SIZE];
  }

  // ---------------------------------------------------------------- what the frame stream says

  /** The frames the driver puts out, command bytes dropped, whether or not their transfers succeed. */
  function FramesOf(ops: seq<Op>): (frames: seq<seq<byte>>)
    ensures forall i :: 0 <= i < |frames| ==> IsFrame(frames[i])
  {
    if ops == [] then []
    else if ops[0].Write? && |ops[0].tx| == FRAME_SIZE + 2 then [ops[0].tx[2..]] + FramesOf(ops[1..])
    else FramesOf(ops[1..])
  }

  lemma {:induction false} FramesOfAppend(a: seq<Op>, b: seq<Op>)
    ensures FramesOf(a + b) == FramesOf(a) + FramesOf(b)
  {
    if a == [] {
      assert a + b == b;
    } else {
      assert (a + b)[1..] == a[1..] + b;
      FramesOfAppend(a[1..], b);
    }
  }

  lemma {:induction false} NoWritesNoFrames(ops: seq<Op>)
    requires forall i :: 0 <= i < |ops| ==> !ops[i].Write?
    ensures FramesOf(ops) == []
  {
    if ops != [] {
      NoWritesNoFrames(ops[1..]);
    }
  }

  lemma OneFrame(f: seq<byte>, ok: bool)
    requires IsFrame(f)
    ensures FramesOf([Write(Wrap(f), ok)]) == [f]
  {
    assert [Write(Wrap(f), ok)][1..] == [];
  }

  lemma FramesOfRound(f: seq<byte>, timeout: nat, s: Slave, p: nat)
    requires IsFrame(f)
    ensures FramesOf(Round(f, timeout, s, p)) == [f]
  {
    hide FramesOf, Wrap, ReadAnswer;
    var w, rest := Write(Wrap(f), s.ok(p)), [Wait(timeout), Read(READ_COMMAND, ReadAnswer(s, p + 1))];
    assert Round(f, timeout, s, p) == [w] + rest;
    FramesOfAppend([w], rest);
    OneFrame(f, s.ok(p));
    NoWritesNoFrames(rest);
  }

  lemma {:induction false} FramesOfRounds(frames: seq<seq<byte>>, timeout: nat, s: Slave, p: nat)
    requires forall i :: 0 <= i < |frames| ==> IsFrame(frames[i])
    ensures FramesOf(Rounds(frames, timeout, s, p)) == frames
  {
    hide Round, FramesOf;
    if frames == [] {
      NothingSent();
    } else {
      assert IsFrame(frames[0]);
      FramesOfRound(frames[0], timeout, s, p);
      FramesOfAppend(Round(frames[0], timeout, s, p), Rounds(frames[1..], timeout, s, p + 2));
      FramesOfRounds(frames[1..], timeout, s, p + 2);
    }
  }

  /** The frame that a data read writes back: whatever its last read brought. */
  function EchoFrame(m: seq<byte>, s: Slave, p: nat): (f: seq<byte>)
    requires IsMessage(m) && KindOf(m).DataRead?
    ensures IsFrame(f)
  {
    RxFrame(ReadAnswer(s, LastRead(m, s, p)))
  }

  /** Frames written by one send. */
  function SentFrames(m: seq<byte>, s: Slave, p: nat): (frames: seq<seq<byte>>)
    requires IsMessage(m)
    ensures forall i :: 0 <= i < |frames| ==> IsFrame(frames[i])
  {
    match KindOf(m)
    case DataRead => [EchoFrame(m, s, p)]
    case Short => Repeat(m[..FRAME_SIZE], Tries(m, s, p))
    case Fragmented => Encode(m)
  }

  lemma FramesOfEcho(m: seq<byte>, s: Slave, p: nat)
    requires IsMessage(m) && KindOf(m).DataRead?
    ensures FramesOf(SendOps(m, s, p)) == [EchoFrame(m, s, p)]
  {
    var k, f := Tries(m, s, p), EchoFrame(m, s, p);
    var head, echo := [Select(0)] + Reads(s, p, k), Write(Wrap(f), s.ok(p + k));
    assert SendOps(m, s, p) == head + [echo];
    NoWritesNoFrames(head);
    FramesOfAppend(head, [echo]);
    OneFrame(f, s.ok(p + k));
  }

  lemma FramesOfSend(m: seq<byte>, s: Slave, p: nat)
    requires IsMessage(m)
    ensures FramesOf(SendOps(m, s, p)) == SentFrames(m, s, p)
  {
    if KindOf(m).DataRead? {
      FramesOfEcho(m, s, p);
    } else {
      var frames := SentFrames(m, s, p);
      var timeout := if KindOf(m).Short? then COMMAND_TIMEOUT else FRAGMENT_TIMEOUT;
      var rounds := Rounds(frames, timeout, s, p);
      var tail := if KindOf(m).Short? then [Select(0)] else [];
      assert SendOps(m, s, p) == [Select(1)] + rounds + tail;
      FramesOfRounds(frames, timeout, s, p);
      FramesOfAppend([Select(1)], rounds);
      FramesOfAppend([Select(1)] + rounds, tail);
      NoWritesNoFrames([Select(1)]);
      NoWritesNoFrames(tail);
    }
  }

  lemma FramesOfShortSend(m: seq<byte>, s: Slave, p: nat)
    requires IsMessage(m) && KindOf(m).Short?
    ensures var frames := FramesOf(SendOps(m, s, p));
            1 <= |frames| <= 3 && forall i :: 0 <= i < |frames| ==> frames[i] == m[..FRAME_SIZE]
  {
    hide SendOps, FramesOf;
    FramesOfSend(m, s, p);
  }

  /** Both branches refine one encoder: each attempt of a short message with a clean tail writes
      exactly the frames that a fragmented send of it would write. */
  lemma BothBranchesEncode(m: seq<byte>, s: Slave, p: nat)
    requires IsMessage(m) && !KindOf(m).DataRead? && ZeroBeyondLen(m)
    ensures FramesOf(SendOps(m, s, p)) ==
            if KindOf(m).Short? then Repeat(Encode(m)[0], Tries(m, s, p)) else Encode(m)
  {
    FramesOfSend(m, s, p);
    if KindOf(m).Short? {
      ShortMessageIsItsOwnFrame(m);
    }
  }

  /** The data bytes a receiver takes from a frame. */
  function FrameData(f: seq<byte>): (d: seq<byte>)
    requires IsFrame(f)
    ensures |d| == if Len(f) < FIFO_LEN then Len(f) else FIFO_LEN
  {
    f[HEADER_SIZE..HEADER_SIZE + if Len(f) < FIFO_LEN then Len(f) else FIFO_LEN]
  }

  /** Commands that the frames of one send spell, taken by themselves: a fragmented message once, a
      short one as many times as it was tried, an echo as one frame. */
  function Spelled(m: seq<byte>, s: Slave, p: nat): seq<Command>
    requires IsMessage(m)
  {
    match KindOf(m)
    case DataRead =>
      var f := EchoFrame(m, s, p);
      [Command(Result(f), CmdId(f), FrameData(f))]
    case Short => Repeat(CommandOf(m), Tries(m, s, p))
    case Fragmented => [CommandOf(m)]
  }

  function Delivered(ms: seq<seq<byte>>, s: Slave, p: nat): seq<Command>
    requires forall i :: 0 <= i < |ms| ==> IsMessage(ms[i])
  {
    if ms == [] then []
    else Spelled(ms[0], s, p) + Delivered(ms[1..], s, p + SendTransfers(ms[0], s, p))
  }

  /** Every frame echoed by a data read of the session has a length field below FIFO_LEN. */
  predicate EchoesClose(ms: seq<seq<byte>>, s: Slave, p: nat)
    requires forall i :: 0 <= i < |ms| ==> IsMessage(ms[i])
  {
    ms != [] ==>
      && (KindOf(ms[0]).DataRead? ==> Len(EchoFrame(ms[0], s, p)) < FIFO_LEN)
      && EchoesClose(ms[1..], s, p + SendTransfers(ms[0], s, p))
  }

  lemma {:induction false} ReceiveRepeated(m: seq<byte>, k: nat, rest: seq<seq<byte>>)
    requires IsMessage(m) && Len(m) < FIFO_LEN
    requires forall j :: 0 <= j < |rest| ==> IsFrame(rest[j])
    ensures Receive(Repeat(m[..FRAME_SIZE], k) + rest, []) == Repeat(CommandOf(m), k) + Receive(rest, [])
  {
    hide Receive, CommandOf, Len;
    if k == 0 {
      assert Repeat(m[..FRAME_SIZE], k) + rest == rest;
    } else {
      ReceiveRepeated(m, k - 1, rest);
      var tail := Repeat(m[..FRAME_SIZE], k - 1) + rest;
      assert Repeat(m[..FRAME_SIZE], k) + rest == [m[..FRAME_SIZE]] + tail;
      ReceiveRaw(m, tail);
      assert Repeat(CommandOf(m), k) == [CommandOf(m)] + Repeat(CommandOf(m), k - 1);
    }
  }

  /** One send is received as it is spelled, unless it is a data read with a long echo. */
  lemma ReceiveSend(m: seq<byte>, s: Slave, p: nat, rest: seq<seq<byte>>)
    requires IsMessage(m) && forall j :: 0 <= j < |rest| ==> IsFrame(rest[j])
    requires KindOf(m).DataRead? ==> Len(EchoFrame(m, s, p)) < FIFO_LEN
    ensures Receive(SentFrames(m, s, p) + rest, []) == Spelled(m, s, p) + Receive(rest, [])
  {
    hide Encode, Repeat, Tries, EchoFrame, CommandOf, Receive;
    match KindOf(m)
    case DataRead =>
      var f := EchoFrame(m, s, p);
      assert [] + FrameData(f) == FrameData(f);
      ReceiveClosing(f, Command(Result(f), CmdId(f), FrameData(f)), [], rest);
    case Short => ReceiveRepeated(m, Tries(m, s, p), rest);
    case Fragmented => ReceiveEncoded(m, rest);
  }

  lemma {:induction false} ClosedSessionDecodes(ms: seq<seq<byte>>, s: Slave, p: nat)
    requires forall i :: 0 <= i < |ms| ==> IsMessage(ms[i])
    requires EchoesClose(ms, s, p)
    ensures Receive(FramesOf(Session(ms, s, p)), []) == Delivered(ms, s, p)
  {
    hide SendOps, SendTransfers, FramesOf, SentFrames, Spelled, Receive;
    if ms != [] {
      var m, q := ms[0], p + SendTransfers(ms[0], s, p);
      assert IsMessage(m);
      var rest := Session(ms[1..], s, q);
      ClosedSessionDecodes(ms[1..], s, q);
      FramesOfAppend(SendOps(m, s, p), rest);
      FramesOfSend(m, s, p);
      ReceiveSend(m, s, p, FramesOf(rest));
    } else {
      NothingSent();
      ReceiveNothing();
    }
  }

  lemma NothingSent()
    ensures FramesOf([]) == []
  {
  }

  // ---------------------------------------------------------------- bookkeeping of a receiver

  function Closings(frames: seq<seq<byte>>): nat
    requires forall i :: 0 <= i < |frames| ==> IsFrame(frames[i])
  {
    if frames == [] then 0
    else
      var f := frames[0];
      assert IsFrame(f);
      (if Len(f) < FIFO_LEN then 1 else 0) + Closings(frames[1..])
  }

  /** Data bytes of a list of frames, and one for every frame that closes a command. */
  function Weight(frames: seq<seq<byte>>): nat
    requires forall i :: 0 <= i < |frames| ==> IsFrame(frames[i])
  {
    if frames == [] then 0
    else
      var f := frames[0];
      assert IsFrame(f);
      |FrameData(f)| + (if Len(f) < FIFO_LEN then 1 else 0) + Weight(frames[1..])
  }

  function Bulk(cs: seq<Command>): nat {
    if cs == [] then 0 else 1 + |cs[0].payload| + Bulk(cs[1..])
  }

  /** What a receiver still holds when the frames end. */
  function Leftover(frames: seq<seq<byte>>, partial: seq<byte>): seq<byte>
    requires forall i :: 0 <= i < |frames| ==> IsFrame(frames[i])
  {
    if frames == [] then partial
    else
      var f := frames[0];
      assert IsFrame(f);
      Leftover(frames[1..], if Len(f) < FIFO_LEN then [] else partial + f[HEADER_SIZE..])
  }

  /** A receiver neither invents nor drops a byte, and yields one command per closing frame. */
  lemma {:induction false} ReceiveConserves(frames: seq<seq<byte>>, partial: seq<byte>)
    requires forall i :: 0 <= i < |frames| ==> IsFrame(frames[i])
    ensures |Receive(frames, partial)| == Closings(frames)
    ensures Bulk(Receive(frames, partial)) + |Leftover(frames, partial)| == |partial| + Weight(frames)
  {
    hide Len;
    if frames != [] {
      var f := frames[0];
      assert IsFrame(f);
      if Len(f) < FIFO_LEN {
        ReceiveConserves(frames[1..], []);
        assert Receive(frames, partial)[1..] == Receive(frames[1..], []);
      } else {
        ReceiveConserves(frames[1..], partial + f[HEADER_SIZE..]);
      }
    }
  }

  lemma {:induction false} CountsAppend(a: seq<seq<byte>>, b: seq<seq<byte>>)
    requires forall i :: 0 <= i < |a| ==> IsFrame(a[i])
    requires forall i :: 0 <= i < |b| ==> IsFrame(b[i])
    ensures Closings(a + b) == Closings(a) + Closings(b)
  {
    hide Len;
    if a == [] {
      assert a + b == b;
    } else {
      assert IsFrame(a[0]) && (a + b)[0] == a[0] && (a + b)[1..] == a[1..] + b;
      CountsAppend(a[1..], b);
    }
  }

  /** The stream does not stop inside a command. */
  predicate Closed(frames: seq<seq<byte>>)
    requires forall i :: 0 <= i < |frames| ==> IsFrame(frames[i])
  {
    frames == [] || (IsFrame(frames[|frames| - 1]) && Len(frames[|frames| - 1]) < FIFO_LEN)
  }

  lemma {:induction false} ClosedLeavesNothing(frames: seq<seq<byte>>, partial: seq<byte>)
    requires forall i :: 0 <= i < |frames| ==> IsFrame(frames[i])
    requires Closed(frames) && (frames == [] ==> partial == [])
    ensures Leftover(frames, partial) == []
  {
    hide Len;
    if frames != [] {
      var f := frames[0];
      assert IsFrame(f);
      ClosedLeavesNothing(frames[1..], if Len(f) < FIFO_LEN then [] else partial + f[HEADER_SIZE..]);
    }
  }

  lemma SendCloses(m: seq<byte>, s: Slave, p: nat)
    requires IsMessage(m)
    ensures SentFrames(m, s, p) != []
    ensures Closed(SentFrames(m, s, p)) <==> !(KindOf(m).DataRead? && Len(EchoFrame(m, s, p)) >= FIFO_LEN)
    ensures KindOf(m).DataRead? ==> SentFrames(m, s, p) == [EchoFrame(m, s, p)]
  {
    hide Encode, Len, EchoFrame;
    match KindOf(m)
    case DataRead =>
    case Short =>
      assert KindOf(m).Short?;
      RawCommand(m);
    case Fragmented => FragmentFields(m, FragmentCount(Len(m)) - 1);
  }

  /** A session spells one command per closing frame, and one more per long echo. */
  lemma {:induction false} LongEchoesAreMissed(ms: seq<seq<byte>>, s: Slave, p: nat)
    requires forall i :: 0 <= i < |ms| ==> IsMessage(ms[i])
    ensures Closings(FramesOf(Session(ms, s, p))) <= |Delivered(ms, s, p)|
    ensures Closings(FramesOf(Session(ms, s, p))) == |Delivered(ms, s, p)| <==> EchoesClose(ms, s, p)
  {
    hide SendOps, SendTransfers, FramesOf, SentFrames, Len, EchoFrame, Closings, Receive;
    if ms == [] {
      NothingSent();
      NothingCloses();
    } else {
      var m, q := ms[0], p + SendTransfers(ms[0], s, p);
      assert IsMessage(m);
      LongEchoesAreMissed(ms[1..], s, q);
      FramesOfAppend(SendOps(m, s, p), Session(ms[1..], s, q));
      FramesOfSend(m, s, p);
      CountsAppend(SentFrames(m, s, p), FramesOf(Session(ms[1..], s, q)));
      SendClosings(m, s, p);
    }
  }

  lemma NothingCloses()
    ensures Closings([]) == 0
  {
  }

  lemma SendClosings(m: seq<byte>, s: Slave, p: nat)
    requires IsMessage(m)
    ensures Closings(SentFrames(m, s, p)) == |Spelled(m, s, p)|
              - if KindOf(m).DataRead? && Len(EchoFrame(m, s, p)) >= FIFO_LEN then 1 else 0
  {
    hide Len, EchoFrame, Receive, SentFrames;
    if KindOf(m).DataRead? && Len(EchoFrame(m, s, p)) >= FIFO_LEN {
      SendCloses(m, s, p);
      assert [EchoFrame(m, s, p)][1..] == [];
    } else {
      ReceiveSend(m, s, p, []);
      ReceiveNothing();
      ReceiveConserves(SentFrames(m, s, p), []);
      assert SentFrames(m, s, p) + [] == SentFrames(m, s, p);
    }
  }

  /** Whatever the slave answers, the frames of a session decode to what its sends spell if and only if
      every echoed frame is short. A longer echo opens a command that the next frames complete. */
  lemma SessionDecodesIff(ms: seq<seq<byte>>, s: Slave, p: nat)
    requires forall i :: 0 <= i < |ms| ==> IsMessage(ms[i])
    ensures Receive(FramesOf(Session(ms, s, p)), []) == Delivered(ms, s, p) <==> EchoesClose(ms, s, p)
  {
    if EchoesClose(ms, s, p) {
      ClosedSessionDecodes(ms, s, p);
    } else {
      LongEchoesAreMissed(ms, s, p);
      ReceiveConserves(FramesOf(Session(ms, s, p)), []);
    }
  }

  /** With the fragmenting path alone, the stream decodes to exactly the list of messages. */
  lemma {:induction false} FragmentedSessionDecodes(ms: seq<seq<byte>>, s: Slave, p: nat)
    requires forall i :: 0 <= i < |ms| ==> IsMessage(ms[i]) && KindOf(ms[i]).Fragmented?
    ensures Receive(FramesOf(Session(ms, s, p)), []) == Commands(ms)
  {
    DeliveredFragmented(ms, s, p);
    ClosedSessionDecodes(ms, s, p);
  }

  lemma {:induction false} DeliveredFragmented(ms: seq<seq<byte>>, s: Slave, p: nat)
    requires forall i :: 0 <= i < |ms| ==> IsMessage(ms[i]) && KindOf(ms[i]).Fragmented?
    ensures EchoesClose(ms, s, p) && Delivered(ms, s, p) == Commands(ms)
  {
    hide SendOps, SendTransfers, Tries, Repeat, Commands, CommandOf;
    if ms != [] {
      assert IsMessage(ms[0]) && KindOf(ms[0]).Fragmented?;
      DeliveredFragmented(ms[1..], s, p + SendTransfers(ms[0], s, p));
      assert Commands(ms) == [CommandOf(ms[0])] + Commands(ms[1..]);
    }
  }

  // ---------------------------------------------------------------- lost frames

  /** The frames whose transfer succeeded: what really reaches the slave. */
  function Arrived(ops: seq<Op>): (frames: seq<seq<byte>>)
    ensures forall i :: 0 <= i < |frames| ==> IsFrame(frames[i])
  {
    if ops == [] then []
    else if ops[0].Write? && ops[0].ok && |ops[0].tx| == FRAME_SIZE + 2 then [ops[0].tx[2..]] + Arrived(ops[1..])
    else Arrived(ops[1..])
  }

  predicate WritesOk(ops: seq<Op>) {
    forall i :: 0 <= i < |ops| && ops[i].Write? ==> ops[i].ok
  }

  /** When no write fails, everything put out arrives; otherwise weight is lost. */
  lemma {:induction false} ArrivedWeighs(ops: seq<Op>)
    requires AllInFormat(ops)
    ensures WritesOk(ops) ==> Arrived(ops) == FramesOf(ops)
    ensures !WritesOk(ops) ==> Weight(Arrived(ops)) < Weight(FramesOf(ops))
    ensures Weight(Arrived(ops)) <= Weight(FramesOf(ops))
    ensures Closings(Arrived(ops)) <= Closings(FramesOf(ops))
  {
    hide Len;
    if ops != [] {
      var tail := ops[1..];
      ArrivedWeighs(tail);
      assert WritesOk(ops) <==> (ops[0].Write? ==> ops[0].ok) && WritesOk(tail) by {
        assert forall i :: 0 < i < |ops| ==> ops[i] == tail[i - 1];
      }
      if ops[0].Write? {
        var f := ops[0].tx[2..];
        assert FramesOf(ops) == [f] + FramesOf(tail) && FramesOf(ops)[1..] == FramesOf(tail);
        assert ops[0].ok ==> Arrived(ops) == [f] + Arrived(tail) && Arrived(ops)[1..] == Arrived(tail);
      }
    }
  }

  lemma {:induction false} SessionCloses(ms: seq<seq<byte>>, s: Slave, p: nat)
    requires forall i :: 0 <= i < |ms| ==> IsMessage(ms[i])
    requires EchoesClose(ms, s, p)
    ensures Closed(FramesOf(Session(ms, s, p)))
  {
    hide SendOps, SendTransfers, FramesOf, SentFrames, Len;
    if ms == [] {
      NothingSent();
    } else {
      var m, q := ms[0], p + SendTransfers(ms[0], s, p);
      assert IsMessage(m);
      SessionCloses(ms[1..], s, q);
      FramesOfAppend(SendOps(m, s, p), Session(ms[1..], s, q));
      FramesOfSend(m, s, p);
      SendCloses(m, s, p);
    }
  }

  /** End to end over whole sessions: the slave decodes exactly what the sends spell if and only if
      every write transfer succeeds and every echo is short. */
  lemma SessionArrivesIff(ms: seq<seq<byte>>, s: Slave, p: nat)
    requires forall i :: 0 <= i < |ms| ==> IsMessage(ms[i])
    ensures Receive(Arrived(Session(ms, s, p)), []) == Delivered(ms, s, p)
       <==> WritesOk(Session(ms, s, p)) && EchoesClose(ms, s, p)
  {
    hide Session, Delivered, Receive, FramesOf, Arrived, WritesOk, EchoesClose;
    var ops := Session(ms, s, p);
    SessionInFormat(ms, s, p);
    ArrivedWeighs(ops);
    ReceiveConserves(Arrived(ops), []);
    if !EchoesClose(ms, s, p) {
      LongEchoesAreMissed(ms, s, p);
    } else {
      ClosedSessionDecodes(ms, s, p);
      ReceiveConserves(FramesOf(ops), []);
      SessionCloses(ms, s, p);
      ClosedLeavesNothing(FramesOf(ops), []);
    }
  }

  // ---------------------------------------------------------------- exactly once

  /** Every short send of the session brings SUCCESS in its first read. */
  predicate AcknowledgedAtOnce(ms: seq<seq<byte>>, s: Slave, p: nat)
    requires forall i :: 0 <= i < |ms| ==> IsMessage(ms[i])
  {
    ms != [] ==>
      && (KindOf(ms[0]).Short? ==> Good(ReadAnswer(s, p + 1)))
      && AcknowledgedAtOnce(ms[1..], s, p + SendTransfers(ms[0], s, p))
  }

  lemma FirstTry(m: seq<byte>, s: Slave, p: nat)
    requires IsMessage(m) && KindOf(m).Short?
    ensures Good(ReadAnswer(s, p + 1)) <==> Tries(m, s, p) == 1
  {
    hide Good, ReadAnswer;
    assert p + 1 + 0 * 2 == p + 1;
  }

  lemma {:induction false} DeliveredOnce(ms: seq<seq<byte>>, s: Slave, p: nat)
    requires forall i :: 0 <= i < |ms| ==> IsMessage(ms[i]) && !KindOf(ms[i]).DataRead?
    ensures |Delivered(ms, s, p)| >= |ms| && EchoesClose(ms, s, p)
    ensures |Delivered(ms, s, p)| == |ms| <==> AcknowledgedAtOnce(ms, s, p)
    ensures AcknowledgedAtOnce(ms, s, p) ==> Delivered(ms, s, p) == Commands(ms)
  {
    hide SendTransfers, KindOf, Tries, CommandOf, ReadAnswer, Good, Commands;
    if ms != [] {
      var m, q := ms[0], p + SendTransfers(ms[0], s, p);
      assert IsMessage(m) && !KindOf(m).DataRead?;
      DeliveredOnce(ms[1..], s, q);
      if KindOf(m).Short? {
        FirstTry(m, s, p);
      }
      assert Commands(ms) == [CommandOf(m)] + Commands(ms[1..]);
    }
  }

  /** When every write succeeds, a session of commands is decoded as just those commands, each of them
      once, if and only if every short one is acknowledged at its first attempt. Any other short one
      arrives again. */
  lemma DeliveredExactlyOnceIff(ms: seq<seq<byte>>, s: Slave, p: nat)
    requires forall i :: 0 <= i < |ms| ==> IsMessage(ms[i]) && !KindOf(ms[i]).DataRead?
    requires WritesOk(Session(ms, s, p))
    ensures Receive(Arrived(Session(ms, s, p)), []) == Commands(ms) <==> AcknowledgedAtOnce(ms, s, p)
  {
    hide Session, Receive, Arrived, WritesOk, Delivered, AcknowledgedAtOnce;
    DeliveredOnce(ms, s, p);
    SessionArrivesIff(ms, s, p);
  }

  /** A command that is never acknowledged, for example because only the reads fail, arrives three times. */
  lemma UnacknowledgedArrivesThrice(m: seq<byte>, s: Slave, p: nat)
    requires IsMessage(m) && KindOf(m).Short? && WritesOk(SendOps(m, s, p))
    requires !SomeReadGood(SendOps(m, s, p))
    ensures Receive(Arrived(SendOps(m, s, p)), []) == Repeat(CommandOf(m), 3)
  {
    OneSend(m, s, p);
    SessionArrivesIff([m], s, p);
    hide Session, Receive, Arrived, WritesOk, Rounds, Attempts, Good, ReadAnswer, SomeReadGood;
    var k := Attempts(s, p + 1, 2);
    GoodRounds(m[..FRAME_SIZE], s, p, k);
    assert p + 1 + (k - 1) * 2 == p + 2 * k - 1;
    assert k == 3;
  }

  // ---------------------------------------------------------------- a slave that sees only bytes

  /** The byte strings clocked into the slave by the transfers that succeed. */
  function Clocked(ops: seq<Op>): seq<seq<byte>> {
    if ops == [] then []
    else
      (match ops[0]
       case Write(tx, ok) => if ok then [tx] else []
       case Read(cmd, response) => if response.Shifted? then [cmd] else []
       case _ => []) + Clocked(ops[1..])
  }

  /** The frames among them, told from read commands by the first byte. */
  function WrittenFrames(transfers: seq<seq<byte>>): (frames: seq<seq<byte>>)
    ensures forall i :: 0 <= i < |frames| ==> IsFrame(frames[i])
  {
    if transfers == [] then []
    else if |transfers[0]| >= 34 && transfers[0][0] == 0x02 then
      [transfers[0][2..34]] + WrittenFrames(transfers[1..])
    else WrittenFrames(transfers[1..])
  }

  lemma {:induction false} ClockedFramesArrive(ops: seq<Op>)
    requires AllInFormat(ops)
    ensures WrittenFrames(Clocked(ops)) == Arrived(ops)
  {
    if ops != [] {
      var op, tail := ops[0], Clocked(ops[1..]);
      assert InFormat(op);
      ClockedFramesArrive(ops[1..]);
      if op.Write? && op.ok {
        assert Clocked(ops) == [op.tx] + tail && Clocked(ops)[1..] == tail;
        assert op.tx[2..34] == op.tx[2..];
      } else if op.Read? && op.response.Shifted? {
        assert Clocked(ops) == [op.cmd] + tail && Clocked(ops)[1..] == tail;
      } else {
        assert Clocked(ops) == tail;
      }
    }
  }

  /** The same end to end for a slave that sees nothing but the bytes of whole transfers, reads among
      them, and recognises a write by its first byte, 02. */
  lemma BytesArriveIff(ms: seq<seq<byte>>, s: Slave, p: nat)
    requires forall i :: 0 <= i < |ms| ==> IsMessage(ms[i])
    ensures Receive(WrittenFrames(Clocked(Session(ms, s, p))), []) == Delivered(ms, s, p)
       <==> WritesOk(Session(ms, s, p)) && EchoesClose(ms, s, p)
  {
    hide Session, Delivered, Receive, Clocked, WrittenFrames, Arrived, WritesOk, EchoesClose;
    SessionInFormat(ms, s, p);
    ClockedFramesArrive(Session(ms, s, p));
    SessionArrivesIff(ms, s, p);
  }

  /** The write of round i went through. */
  predicate WriteOk(s: Slave, p: nat, i: nat) {
    s.ok(p + 2 * i)
  }

  lemma RoundsOk(frames: seq<seq<byte>>, timeout: nat, s: Slave, p: nat)
    ensures WritesOk(Rounds(frames, timeout, s, p)) <==> forall i :: 0 <= i < |frames| ==> WriteOk(s, p, i)
  {
    hide Rounds, Wrap, ReadAnswer;
    var ops := Rounds(frames, timeout, s, p);
    forall i | 0 <= i < |frames|
      ensures ops[3 * i].Write? && ops[3 * i].ok == WriteOk(s, p, i)
    {
      RoundsAt(frames, timeout, s, p, i);
    }
    forall j | 0 <= j < |ops| && ops[j].Write?
      ensures j == 3 * (j / 3) && j / 3 < |frames|
    {
      RoundsAt(frames, timeout, s, p, j / 3);
    }
  }

  /** A fragmented message reaches a fresh slave whole if and only if every one of its writes succeeds. */
  lemma LostFragmentIff(m: seq<byte>, s: Slave, p: nat)
    requires IsMessage(m) && KindOf(m).Fragmented?
    ensures Receive(Arrived(SendOps(m, s, p)), []) == [CommandOf(m)]
       <==> forall i :: 0 <= i < FragmentCount(Len(m)) ==> WriteOk(s, p, i)
  {
    var rounds := Rounds(Encode(m), FRAGMENT_TIMEOUT, s, p);
    RoundsOk(Encode(m), FRAGMENT_TIMEOUT, s, p);
    assert SendOps(m, s, p) == [Select(1)] + rounds;
    hide SendOps, Encode, Rounds, Receive, Arrived, CommandOf;
    assert WritesOk([Select(1)] + rounds) <==> WritesOk(rounds) by {
      assert forall i :: 0 <= i < |rounds| ==> ([Select(1)] + rounds)[i + 1] == rounds[i];
    }
    OneSend(m, s, p);
    SessionArrivesIff([m], s, p);
  }

  lemma OneSend(m: seq<byte>, s: Slave, p: nat)
    requires IsMessage(m)
    ensures Session([m], s, p) == SendOps(m, s, p) && Delivered([m], s, p) == Spelled(m, s, p)
    ensures !KindOf(m).DataRead? ==> EchoesClose([m], s, p)
  {
    hide SendOps, SendTransfers, Spelled;
    assert [m][1..] == [];
  }

  // ---------------------------------------------------------------- what a lost end does to the next command

  /** A list of commands with some bytes put before the payload of the first. */
  function Tainted(before: seq<byte>, cs: seq<Command>): seq<Command> {
    if cs == [] then [] else [cs[0].(payload := before + cs[0].payload)] + cs[1..]
  }

  /** Bytes a receiver already holds end up in front of the next command it yields, and nowhere else. */
  lemma {:induction false} ReceiveCarries(frames: seq<seq<byte>>, before: seq<byte>, partial: seq<byte>)
    requires forall i :: 0 <= i < |frames| ==> IsFrame(frames[i])
    ensures Receive(frames, before + partial) == Tainted(before, Receive(frames, partial))
  {
    hide Len, Result, CmdId;
    if frames != [] {
      var f := frames[0];
      assert IsFrame(f);
      if Len(f) < FIFO_LEN {
        var d := f[HEADER_SIZE..HEADER_SIZE + Len(f)];
        assert (before + partial) + d == before + (partial + d);
        assert Receive(frames, partial)[1..] == Receive(frames[1..], []);
      } else {
        var d := f[HEADER_SIZE..];
        assert (before + partial) + d == before + (partial + d);
        ReceiveCarries(frames[1..], before, partial + d);
      }
    }
  }

  /** A full fragment continues the payload. */
  lemma FullFragment(m: seq<byte>, i: nat)
    requires IsMessage(m) && i < Len(m) / FIFO_LEN
    ensures var f, p := Encode(m)[i], Payload(m);
            Len(f) == FIFO_LEN && p[..i * FIFO_LEN] + f[HEADER_SIZE..] == p[..(i + 1) * FIFO_LEN]
  {
    hide Len, Encode, Payload;
    FragmentFields(m, i);
    var f, p, a := Encode(m)[i], Payload(m), i * FIFO_LEN;
    assert f[HEADER_SIZE..] == f[HEADER_SIZE..HEADER_SIZE + Len(f)] == p[a..a + FIFO_LEN];
    assert p[..a] + p[a..a + FIFO_LEN] == p[..a + FIFO_LEN];
  }

  /** A frame with a length field of 28 or more opens a command. */
  lemma ReceiveOpening(f: seq<byte>, rest: seq<seq<byte>>)
    requires IsFrame(f) && Len(f) >= FIFO_LEN
    requires forall j :: 0 <= j < |rest| ==> IsFrame(rest[j])
    ensures Receive([f] + rest, []) == Tainted(f[HEADER_SIZE..], Receive(rest, []))
  {
    hide Len, Tainted;
    var before := f[HEADER_SIZE..];
    assert ([f] + rest)[1..] == rest && [] + before == before + [];
    ReceiveCarries(rest, before, []);
  }

  /** All fragments of a message but the last leave their data with the receiver. */
  lemma {:induction false} ReceiveHead(m: seq<byte>, i: nat, rest: seq<seq<byte>>)
    requires IsMessage(m) && i <= Len(m) / FIFO_LEN
    requires forall j :: 0 <= j < |rest| ==> IsFrame(rest[j])
    ensures var c := Len(m) / FIFO_LEN;
            Receive(Encode(m)[i..c] + rest, Payload(m)[..i * FIFO_LEN]) == Receive(rest, Payload(m)[..c * FIFO_LEN])
    decreases Len(m) / FIFO_LEN - i
  {
    hide Len, Encode;
    var c := Len(m) / FIFO_LEN;
    var frames := Encode(m)[i..c] + rest;
    if i < c {
      FullFragment(m, i);
      assert frames[0] == Encode(m)[i] && frames[1..] == Encode(m)[i + 1..c] + rest;
      ReceiveHead(m, i + 1, rest);
    } else {
      assert frames == rest;
    }
  }

  lemma {:induction false} ArrivedAppend(a: seq<Op>, b: seq<Op>)
    ensures Arrived(a + b) == Arrived(a) + Arrived(b)
  {
    if a == [] {
      assert a + b == b;
    } else {
      assert (a + b)[1..] == a[1..] + b;
      ArrivedAppend(a[1..], b);
    }
  }

  lemma {:induction false} NothingArrives(ops: seq<Op>)
    requires forall i :: 0 <= i < |ops| && ops[i].Write? ==> !ops[i].ok
    ensures Arrived(ops) == []
  {
    if ops != [] {
      NothingArrives(ops[1..]);
    }
  }

  /** A fragmented send of which only the last write fails. */
  predicate LosesItsEnd(m: seq<byte>, s: Slave, p: nat)
    requires IsMessage(m)
  {
    var c := Len(m) / FIFO_LEN;
    KindOf(m).Fragmented? && !WriteOk(s, p, c) && forall i :: 0 <= i < c ==> WriteOk(s, p, i)
  }

  lemma SplitOffEnd(m: seq<byte>, s: Slave, p: nat)
    requires IsMessage(m) && KindOf(m).Fragmented?
    ensures var c := Len(m) / FIFO_LEN;
            SendOps(m, s, p) == [Select(1)] + (Rounds(Encode(m)[..c], FRAGMENT_TIMEOUT, s, p)
                                               + Round(Encode(m)[c], FRAGMENT_TIMEOUT, s, p + 2 * c))
  {
    hide Rounds, Round, Encode, Attempts;
    var c := Len(m) / FIFO_LEN;
    assert Encode(m) == Encode(m)[..c] + [Encode(m)[c]];
    RoundsAppend(Encode(m)[..c], Encode(m)[c], FRAGMENT_TIMEOUT, s, p);
  }

  lemma ArrivedHead(m: seq<byte>, s: Slave, p: nat)
    requires IsMessage(m) && LosesItsEnd(m, s, p)
    ensures Arrived(SendOps(m, s, p)) == Encode(m)[..Len(m) / FIFO_LEN]
  {
    SplitOffEnd(m, s, p);
    hide SendOps, Rounds, Arrived, Encode, Len, Wrap, ReadAnswer;
    var c := Len(m) / FIFO_LEN;
    var full := Encode(m)[..c];
    var head, round := Rounds(full, FRAGMENT_TIMEOUT, s, p), Round(Encode(m)[c], FRAGMENT_TIMEOUT, s, p + 2 * c);
    ArrivedAppend([Select(1)], head + round);
    ArrivedAppend(head, round);
    NothingArrives([Select(1)]);
    NothingArrives(round);
    RoundsOk(full, FRAGMENT_TIMEOUT, s, p);
    RoundsInFormat(full, FRAGMENT_TIMEOUT, s, p);
    ArrivedWeighs(head);
    FramesOfRounds(full, FRAGMENT_TIMEOUT, s, p);
  }

  /** A fragmented message that loses its last frame is not just missing: its data lands in front of
      the first command that the slave decodes from the rest of the session, whatever that is. */
  lemma LostEndTaintsTheNext(m: seq<byte>, ms: seq<seq<byte>>, s: Slave, p: nat)
    requires IsMessage(m) && forall i :: 0 <= i < |ms| ==> IsMessage(ms[i])
    requires LosesItsEnd(m, s, p)
    ensures var rest := Session(ms, s, p + SendTransfers(m, s, p));
            Receive(Arrived(Session([m] + ms, s, p)), [])
            == Tainted(Payload(m)[..Len(m) / FIFO_LEN * FIFO_LEN], Receive(Arrived(rest), []))
  {
    hide SendOps, SendTransfers, Arrived, Encode, Receive, Tainted, LosesItsEnd, Len;
    var c, rest := Len(m) / FIFO_LEN, Session(ms, s, p + SendTransfers(m, s, p));
    assert ([m] + ms)[1..] == ms;
    ArrivedAppend(SendOps(m, s, p), rest);
    ArrivedHead(m, s, p);
    assert Encode(m)[0..c] == Encode(m)[..c] && Payload(m)[..0] == [];
    ReceiveHead(m, 0, Arrived(rest));
    var before := Payload(m)[..c * FIFO_LEN];
    assert before + [] == before;
    ReceiveCarries(Arrived(rest), before, []);
  }

  lemma SendArrives(m: seq<byte>, s: Slave, p: nat)
    requires IsMessage(m) && WritesOk(SendOps(m, s, p))
    ensures Arrived(SendOps(m, s, p)) == FramesOf(SendOps(m, s, p))
  {
    SendInFormat(m, s, p);
    ArrivedWeighs(SendOps(m, s, p));
  }

  /** So does a data read whose echo arrives with a length of 28 or more. */
  lemma LongEchoTaintsTheNext(m: seq<byte>, ms: seq<seq<byte>>, s: Slave, p: nat)
    requires IsMessage(m) && forall i :: 0 <= i < |ms| ==> IsMessage(ms[i])
    requires KindOf(m).DataRead? && Len(EchoFrame(m, s, p)) >= FIFO_LEN && WritesOk(SendOps(m, s, p))
    ensures var rest := Session(ms, s, p + SendTransfers(m, s, p));
            Receive(Arrived(Session([m] + ms, s, p)), [])
            == Tainted(EchoFrame(m, s, p)[HEADER_SIZE..], Receive(Arrived(rest), []))
  {
    hide SendOps, SendTransfers, Arrived, FramesOf, Tainted, WritesOk, Len, EchoFrame, Receive;
    var f, rest := EchoFrame(m, s, p), Session(ms, s, p + SendTransfers(m, s, p));
    assert ([m] + ms)[1..] == ms;
    ArrivedAppend(SendOps(m, s, p), rest);
    SendArrives(m, s, p);
    FramesOfEcho(m, s, p);
    ReceiveOpening(f, Arrived(rest));
  }

  /** Such a data read exists: the search command behind it is not decoded, though every write succeeds. */
  lemma LongEchoSpoilsACommand() returns (m: seq<byte>, c: seq<byte>, s: Slave)
    ensures IsMessage(m) && KindOf(m).DataRead? && IsMessage(c) && KindOf(c).Short?
    ensures WritesOk(Session([m, c], s, 0))
    ensures Receive(Arrived(Session([m, c], s, 0)), []) != Delivered([m, c], s, 0)
  {
    m, c := Request(DATA_READ, 2, []), Request(0, 5, []);
    s := Slave((k: nat) => true, (k: nat, j: nat) => if j == 4 then FIFO_LEN else 0);
    EmptyRequest(DATA_READ, 2);
    EmptyRequest(0, 5);
    LongEcho(m, s);
    hide Request, Session, Delivered, Arrived, Receive, EchoFrame, SendTransfers, Len, WritesOk;
    AllWritesOk([m, c], s, 0);
    assert [m, c][0] == m;
    SessionArrivesIff([m, c], s, 0);
  }

  lemma EmptyRequest(result: byte, id: byte)
    ensures var m := Request(result, id, []);
            IsMessage(m) && Len(m) == 0 && KindOf(m) == if result == DATA_READ then DataRead else Short
  {
    var m := Request(result, id, []);
    RequestFields(result, id, []);
    assert Len(m) == |Payload(m)| == 0;
  }

  lemma LongEcho(m: seq<byte>, s: Slave)
    requires IsMessage(m) && KindOf(m).DataRead?
    requires forall k :: s.ok(k)
    requires forall k, j :: s.out(k, j) == if j == 4 then FIFO_LEN else 0
    ensures Len(EchoFrame(m, s, 0)) == FIFO_LEN
  {
    var r := ReadAnswer(s, LastRead(m, s, 0));
    assert EchoFrame(m, s, 0) == r.rx[2..2 + FRAME_SIZE] && r.rx[4] == FIFO_LEN && r.rx[5] == 0;
  }

  lemma {:induction false} AllWritesOk(ms: seq<seq<byte>>, s: Slave, p: nat)
    requires forall i :: 0 <= i < |ms| ==> IsMessage(ms[i])
    requires forall k :: s.ok(k)
    ensures WritesOk(Session(ms, s, p))
  {
    hide SendOps, SendTransfers;
    if ms != [] {
      assert IsMessage(ms[0]);
      AllWritesOk(ms[1..], s, p + SendTransfers(ms[0], s, p));
      SendWritesOk(ms[0], s, p);
    }
  }

  lemma SendWritesOk(m: seq<byte>, s: Slave, p: nat)
    requires IsMessage(m) && forall k :: s.ok(k)
    ensures WritesOk(SendOps(m, s, p))
  {
    hide Encode, Rounds, Attempts, RxFrame;
    match KindOf(m)
    case DataRead =>
    case Short =>
      RoundsOk(Repeat(m[..FRAME_SIZE], Tries(m, s, p)), COMMAND_TIMEOUT, s, p);
    case Fragmented =>
      RoundsOk(Encode(m), FRAGMENT_TIMEOUT, s, p);
  }

  /** And SUCCESS does not certify an upgrade: here the first of two fragments is lost, the read after
      the last one succeeds, and the slave has no such message. */
  lemma SuccessDespiteLoss() returns (m: seq<byte>, s: Slave)
    ensures IsMessage(m) && KindOf(m).Fragmented?
    ensures Result(Reply(m, s, 0)) == SUCCESS
    ensures Receive(Arrived(SendOps(m, s, 0)), []) != [CommandOf(m)]
  {
    m := Request(0, 0, Zeros(FIFO_LEN));
    s := Slave((k: nat) => k != 0, (k: nat, j: nat) => SUCCESS);
    RequestFields(0, 0, Zeros(FIFO_LEN));
    assert Len(m) == |Payload(m)| == FIFO_LEN;
    LostFragmentIff(m, s, 0);
    assert !WriteOk(s, 0, 0);
    hide SendOps, Arrived, Receive, Request;
    assert LastRead(m, s, 0) == 3 && Good(ReadAnswer(s, 3));
    ResultOfRxFrame(ReadAnswer(s, 3));
  }
}
