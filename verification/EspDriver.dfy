/** The SPI side of the kernel driver: buffers copied in place, transfers, and `esp_spi_send`. */
module EspDriver {
  import opened Layout
  import opened Framing
  import opened Wire

  /** `a` with the bytes from `d` on overwritten by `b`. */
  function Splice(a: seq<byte>, d: nat, b: seq<byte>): (c: seq<byte>)
    requires d + |b| <= |a|
    ensures |c| == |a|
  {
    a[..d] + b + a[d + |b|..]
  }

  lemma SpliceWhole(a: seq<byte>, b: seq<byte>)
    requires |a| == |b|
    ensures Splice(a, 0, b) == b
  {
  }

  lemma SpliceHead(head: seq<byte>, tail: seq<byte>, b: seq<byte>)
    requires |head| == |b|
    ensures Splice(head + tail, 0, b) == b + tail
  {
  }

  /** memcpy between two distinct buffers. */
  method Memcpy(dst: array<byte>, d: nat, src: array<byte>, s: nat, n: nat)
    requires dst != src
    requires d + n <= dst.Length && s + n <= src.Length
    modifies dst
    ensures dst[..] == Splice(old(dst[..]), d, src[s..s + n])
  {
    for i := 0 to n
      invariant forall j :: d <= j < d + i ==> dst[j] == src[s + j - d]
      invariant forall j :: 0 <= j < dst.Length && !(d <= j < d + i) ==> dst[j] == old(dst[j])
    {
      dst[d + i] := src[s + i];
    }
  }

  /** memcpy of the head of `src` over the whole of `dst`. */
  method CopyWhole(dst: array<byte>, src: array<byte>)
    requires dst != src && dst.Length <= src.Length
    modifies dst
    ensures dst[..] == src[..dst.Length]
  {
    Memcpy(dst, 0, src, 0, dst.Length);
    assert src[0..dst.Length] == src[..dst.Length];
    SpliceWhole(old(dst[..]), src[..dst.Length]);
  }

  /** memset(buf, 0, sizeof(buf)). */
  method Clear(buf: array<byte>)
    modifies buf
    ensures buf[..] == Zeros(buf.Length)
  {
    for i := 0 to buf.Length
      invariant forall j :: 0 <= j < i ==> buf[j] == 0
    {
      buf[i] := 0;
    }
  }

  method NewBuffer(n: nat) returns (buf: array<byte>)
    ensures fresh(buf) && buf.Length == n
    ensures buf[..] == Zeros(n)
  {
    buf := new byte[n](_ => 0);
  }

  class EspDevice {
    const slave: Slave
    var transfers: nat            // transfers made so far; the environment's clock
    var isEintTimeout: int
    ghost var trace: seq<Op>
    ghost var sent: seq<seq<byte>>

    /** The device has done exactly what the messages sent so far call for. */
    ghost predicate Valid()
      reads this
    {
      && (forall i :: 0 <= i < |sent| ==> IsMessage(sent[i]))
      && trace == Session(sent, slave, 0)
      && transfers == SessionTransfers(sent, slave, 0)
      && isEintTimeout == SessionSelector(sent)
    }

    constructor (slave: Slave)
      ensures Valid() && this.slave == slave && sent == []
    {
      this.slave := slave;
      transfers, isEintTimeout, trace, sent := 0, 0, [], [];
    }

    /** One full-duplex transfer: a failed one leaves the receive buffer as it was. */
    method EspSpiSync(txbuf: array<byte>, rxbuf: array<byte>)
      requires txbuf != rxbuf && txbuf.Length == rxbuf.Length
      modifies this`transfers, rxbuf
      ensures transfers == old(transfers) + 1
      ensures rxbuf[..] == Received(old(rxbuf[..]), Answer(slave, old(transfers), rxbuf.Length))
    {
      if slave.ok(transfers) {
        for j := 0 to rxbuf.Length
          invariant transfers == old(transfers)
          invariant forall i :: 0 <= i < j ==> rxbuf[i] == slave.out(transfers, i)
        {
          rxbuf[j] := slave.out(transfers, j);
        }
        assert rxbuf[..] == Answer(slave, old(transfers), rxbuf.Length).rx;
      }
      transfers := transfers + 1;
    }

    method EspSpiWrite(txbuf: array<byte>)
      requires txbuf.Length == FRAME_SIZE
      modifies this`transfers, this`trace
      ensures transfers == old(transfers) + 1
      ensures trace == old(trace) + [Write([0x02, 0x00] + txbuf[..], slave.ok(old(transfers)))]
      ensures trace == old(trace) + [Write(Wrap(txbuf[..]), slave.ok(old(transfers)))]
    {
      var tbuf := NewBuffer(txbuf.Length + 2);
      var rbuf := NewBuffer(txbuf.Length + 2);
      Clear(tbuf);
      tbuf[0] := 0x02;
      tbuf[1] := 0x00;
      Memcpy(tbuf, 2, txbuf, 0, txbuf.Length);
      assert tbuf[..] == Wrap(txbuf[..]) by {
        assert txbuf[0..txbuf.Length] == txbuf[..];
      }
      trace := trace + [Write(tbuf[..], slave.ok(transfers))];
      EspSpiSync(tbuf, rbuf);
    }

    method EspSpiRead(rxbuf: array<byte>)
      requires rxbuf.Length == READ_SIZE
      modifies this`transfers, this`trace, rxbuf
      ensures transfers == old(transfers) + 1
      ensures trace == old(trace) + [Read([0x03, 0x00] + seq(34, _ => 0), ReadAnswer(slave, old(transfers)))]
      ensures trace == old(trace) + [Read(READ_COMMAND, ReadAnswer(slave, old(transfers)))]
      ensures rxbuf[..] == Received(old(rxbuf[..]), ReadAnswer(slave, old(transfers)))
    {
      var tbuf := NewBuffer(rxbuf.Length);
      tbuf[0] := 0x03;
      tbuf[1] := 0x00;
      assert tbuf[..] == [0x03, 0x00] + seq(34, _ => 0) == READ_COMMAND;
      trace := trace + [Read(tbuf[..], Answer(slave, transfers, rxbuf.Length))];
      EspSpiSync(tbuf, rxbuf);
    }

    /** The wait itself belongs to the interrupt model; here it is only an event in the trace. */
    method EspWaitSpiEintTimeout(timeout: nat)
      modifies this`trace
      ensures trace == old(trace) + [Wait(timeout)]
    {
      trace := trace + [Wait(timeout)];
    }

    method SelectTimeout(value: int)
      modifies this`isEintTimeout, this`trace
      ensures isEintTimeout == value
      ensures trace == old(trace) + [Select(value)]
    {
      isEintTimeout := value;
      trace := trace + [Select(value)];
    }

    /** Clear the 36-byte buffer, read into it, copy the frame at offset 2 to the head of the reply. */
    method ReceiveFrame(rxdata: array<byte>, rxbuf: array<byte>, ghost head: seq<byte>) returns (result: byte)
      requires rxdata != rxbuf && rxdata.Length == READ_SIZE && rxbuf.Length == MESSAGE_SIZE
      requires IsFrame(head) && rxbuf[..] == InReply(head)
      modifies this`transfers, this`trace, rxdata, rxbuf
      ensures transfers == old(transfers) + 1
      ensures trace == old(trace) + [Read(READ_COMMAND, ReadAnswer(slave, old(transfers)))]
      ensures rxbuf[..] == InReply(RxFrame(ReadAnswer(slave, old(transfers))))
      ensures result == SUCCESS <==> Good(ReadAnswer(slave, old(transfers)))
    {
      Clear(rxdata);
      EspSpiRead(rxdata);
      assert rxdata[2..2 + FRAME_SIZE] == RxFrame(ReadAnswer(slave, old(transfers)));
      Memcpy(rxbuf, 0, rxdata, 2, FRAME_SIZE);
      SpliceHead(head, Zeros(MESSAGE_SIZE - FRAME_SIZE), rxdata[2..2 + FRAME_SIZE]);
      result := rxbuf[0];
      ResultOfRxFrame(ReadAnswer(slave, old(transfers)));
      ResultInReply(rxbuf, rxdata[2..2 + FRAME_SIZE]);
    }

    /** Write one frame, wait for the interrupt, read the answer. */
    method Exchange(txdata: array<byte>, timeout: nat, rxdata: array<byte>, rxbuf: array<byte>, ghost head: seq<byte>)
      returns (result: byte)
      requires txdata != rxdata && txdata != rxbuf && rxdata != rxbuf
      requires txdata.Length == FRAME_SIZE && rxdata.Length == READ_SIZE && rxbuf.Length == MESSAGE_SIZE
      requires IsFrame(head) && rxbuf[..] == InReply(head)
      modifies this`transfers, this`trace, rxdata, rxbuf
      ensures transfers == old(transfers) + 2
      ensures trace == old(trace) + Round(txdata[..], timeout, slave, old(transfers))
      ensures rxbuf[..] == InReply(RxFrame(ReadAnswer(slave, old(transfers) + 1)))
      ensures result == SUCCESS <==> Good(ReadAnswer(slave, old(transfers) + 1))
    {
      hide Wrap, ReadAnswer, RxFrame, InReply, Good;
      EspSpiWrite(txdata);
      EspWaitSpiEintTimeout(timeout);
      result := ReceiveFrame(rxdata, rxbuf, head);
    }

    /** The `DATA_READ` branch: up to three reads, then the last response is written back. */
    method SendDataRead(txdata: array<byte>, rxdata: array<byte>, rxbuf: array<byte>)
      requires txdata != rxdata && txdata != rxbuf && rxdata != rxbuf
      requires txdata.Length == FRAME_SIZE && rxdata.Length == READ_SIZE && rxbuf.Length == MESSAGE_SIZE
      requires rxbuf[..] == InReply(Zeros(FRAME_SIZE))
      modifies this`transfers, this`trace, this`isEintTimeout, txdata, rxdata, rxbuf
      ensures var p := old(transfers);
              var k := Attempts(slave, p, 1);
              var frame := RxFrame(ReadAnswer(slave, p + k - 1));
              && trace == old(trace) + ([Select(0)] + Reads(slave, p, k) + [Write(Wrap(frame), slave.ok(p + k))])
              && transfers == p + k + 1
              && rxbuf[..] == InReply(frame)
      ensures isEintTimeout == 0
    {
      hide Wrap, ReadAnswer, Good, RxFrame, Attempts;
      var retry := RETRY;
      ghost var p, made, head := transfers, 0, Zeros(FRAME_SIZE);
      SelectTimeout(0);
      while retry > 0
        invariant 0 <= retry <= RETRY && made == RETRY - retry
        invariant transfers == p + made && isEintTimeout == 0
        invariant forall j :: 0 <= j < made ==> !Good(ReadAnswer(slave, p + j * 1))
        invariant trace == old(trace) + ([Select(0)] + Reads(slave, p, made))
        invariant IsFrame(head) && rxbuf[..] == InReply(head)
        invariant made > 0 ==> head == RxFrame(ReadAnswer(slave, p + made - 1))
      {
        var result := ReceiveFrame(rxdata, rxbuf, head);
        head := RxFrame(ReadAnswer(slave, p + made));
        assert Reads(slave, p, made + 1) == Reads(slave, p, made) + [Read(READ_COMMAND, ReadAnswer(slave, p + made))];
        assert made * 1 == made;
        made := made + 1;
        if result != SUCCESS {
          retry := retry - 1;
        } else {
          break;
        }
      }
      AttemptsUnique(slave, p, 1, made);
      Clear(txdata);
      CopyWhole(txdata, rxbuf);
      assert rxbuf[..][..FRAME_SIZE] == head;
      EspSpiWrite(txdata);
    }

    /** The short branch: one raw 32-byte frame, up to three attempts. */
    method SendShort(txbuf: array<byte>, txdata: array<byte>, rxdata: array<byte>, rxbuf: array<byte>)
      requires txbuf != txdata && txbuf != rxdata && txbuf != rxbuf
      requires txdata != rxdata && txdata != rxbuf && rxdata != rxbuf
      requires txdata.Length == FRAME_SIZE && rxdata.Length == READ_SIZE
      requires txbuf.Length == rxbuf.Length == MESSAGE_SIZE
      requires rxbuf[..] == InReply(Zeros(FRAME_SIZE))
      modifies this`transfers, this`trace, this`isEintTimeout, txdata, rxdata, rxbuf
      ensures var p := old(transfers);
              var k := Attempts(slave, p + 1, 2);
              && trace == old(trace) + ([Select(1)]
                   + Rounds(Repeat(txbuf[..FRAME_SIZE], k), COMMAND_TIMEOUT, slave, p) + [Select(0)])
              && transfers == p + 2 * k
              && rxbuf[..] == InReply(RxFrame(ReadAnswer(slave, p + 2 * k - 1)))
      ensures isEintTimeout == 0
    {
      hide Rounds, Round, Repeat, ReadAnswer, Good, RxFrame, Attempts, InReply, Zeros, IsReadResponse;
      var retry := RETRY;
      ghost var p, made, head := transfers, 0, Zeros(FRAME_SIZE);
      ghost var frame := txbuf[..FRAME_SIZE];
      SelectTimeout(1);
      NoRounds(frame, slave, p);
      while retry > 0
        invariant 0 <= retry <= RETRY && made == RETRY - retry
        invariant transfers == p + 2 * made
        invariant forall j :: 0 <= j < made ==> !Good(ReadAnswer(slave, p + 1 + j * 2))
        invariant trace == old(trace) + ([Select(1)] + Rounds(Repeat(frame, made), COMMAND_TIMEOUT, slave, p))
        invariant IsFrame(head) && rxbuf[..] == InReply(head)
        invariant made > 0 ==> head == RxFrame(ReadAnswer(slave, p + 2 * made - 1))
      {
        CopyWhole(txdata, txbuf);
        var result := Exchange(txdata, COMMAND_TIMEOUT, rxdata, rxbuf, head);
        head := RxFrame(ReadAnswer(slave, p + 2 * made + 1));
        OneMoreRound(frame, made, slave, p);
        assert p + 2 * made + 1 == p + 1 + made * 2;
        made := made + 1;
        if result != SUCCESS {
          retry := retry - 1;
        } else {
          break;
        }
      }
      AttemptsUnique(slave, p + 1, 2, made);
      SelectTimeout(0);
    }

    /** The fragmenting branch: len / 28 + 1 fragments, each written, awaited and answered once. */
    method SendFragments(txbuf: array<byte>, txdata: array<byte>, rxdata: array<byte>, rxbuf: array<byte>)
      requires txbuf != txdata && txbuf != rxdata && txbuf != rxbuf
      requires txdata != rxdata && txdata != rxbuf && rxdata != rxbuf
      requires txdata.Length == FRAME_SIZE && rxdata.Length == READ_SIZE
      requires rxbuf.Length == MESSAGE_SIZE && IsMessage(txbuf[..])
      requires rxbuf[..] == InReply(Zeros(FRAME_SIZE))
      modifies this`transfers, this`trace, this`isEintTimeout, txdata, rxdata, rxbuf
      ensures var p, k := old(transfers), FragmentCount(Len(txbuf[..]));
              && trace == old(trace) + ([Select(1)] + Rounds(Encode(txbuf[..]), FRAGMENT_TIMEOUT, slave, p))
              && transfers == p + 2 * k
              && rxbuf[..] == InReply(RxFrame(ReadAnswer(slave, p + 2 * k - 1)))
      ensures isEintTimeout == 1
    {
      hide Rounds, Round, Encode, ReadAnswer, RxFrame, InReply;
      ghost var p, m, head := transfers, txbuf[..], Zeros(FRAME_SIZE);
      SelectTimeout(1);
      var count := FragmentCountOf(txbuf);
      NoFragments(m, slave, p);
      for i := 0 to count
        invariant isEintTimeout == 1
        invariant transfers == p + 2 * i
        invariant trace == old(trace) + ([Select(1)] + Rounds(Encode(m)[..i], FRAGMENT_TIMEOUT, slave, p))
        invariant IsFrame(head) && rxbuf[..] == InReply(head)
        invariant i > 0 ==> head == RxFrame(ReadAnswer(slave, p + 2 * i - 1))
      {
        FillFragment(txbuf, txdata, i, count);
        var result := Exchange(txdata, FRAGMENT_TIMEOUT, rxdata, rxbuf, head);
        head := RxFrame(ReadAnswer(slave, p + 2 * i + 1));
        RoundsAppend(Encode(m)[..i], Encode(m)[i], FRAGMENT_TIMEOUT, slave, p);
        assert Encode(m)[..i] + [Encode(m)[i]] == Encode(m)[..i + 1];
      }
      assert Encode(m)[..count] == Encode(m);
    }

    /** The three-way choice of `esp_spi_send`, on its local copies of the message and the reply. */
    method Dispatch(txbuf: array<byte>, txdata: array<byte>, rxdata: array<byte>, rxbuf: array<byte>)
      requires txbuf != txdata && txbuf != rxdata && txbuf != rxbuf
      requires txdata != rxdata && txdata != rxbuf && rxdata != rxbuf
      requires txdata.Length == FRAME_SIZE && rxdata.Length == READ_SIZE
      requires rxbuf.Length == MESSAGE_SIZE && IsMessage(txbuf[..])
      requires rxbuf[..] == InReply(Zeros(FRAME_SIZE))
      modifies this`transfers, this`trace, this`isEintTimeout, txdata, rxdata, rxbuf
      ensures trace == old(trace) + SendOps(txbuf[..], slave, old(transfers))
      ensures transfers == old(transfers) + SendTransfers(txbuf[..], slave, old(transfers))
      ensures rxbuf[..] == Reply(txbuf[..], slave, old(transfers))
      ensures isEintTimeout == SelectorAfter(txbuf[..])
    {
      hide Rounds, Encode, Attempts, Reads, RxFrame, Wrap, ReadAnswer;
      var len := LenOf(txbuf);
      assert txbuf[..][..FRAME_SIZE] == txbuf[..FRAME_SIZE];
      if txbuf[0] == DATA_READ {
        SendDataRead(txdata, rxdata, rxbuf);
      } else {
        if len == 0 || len < FIFO_LEN {
          SendShort(txbuf, txdata, rxdata, rxbuf);
        } else {
          SendFragments(txbuf, txdata, rxdata, rxbuf);
        }
      }
    }

    /** Sends one message and overwrites it with the reply. */
    method EspSpiSend(arg: array<byte>)
      requires Valid() && IsMessage(arg[..])
      modifies this, arg
      ensures Valid()
      ensures sent == old(sent) + [old(arg[..])]
      ensures trace == old(trace) + SendOps(old(arg[..]), slave, old(transfers))
      ensures transfers == old(transfers) + SendTransfers(old(arg[..]), slave, old(transfers))
      ensures arg[..] == Reply(old(arg[..]), slave, old(transfers))
    {
      hide Session, SessionTransfers, SendOps, SendTransfers, Reply, SelectorAfter;
      var txdata := NewBuffer(FRAME_SIZE);
      var rxdata := NewBuffer(READ_SIZE);
      var txbuf := NewBuffer(MESSAGE_SIZE);
      var rxbuf := NewBuffer(MESSAGE_SIZE);
      ghost var m := arg[..];
      CopyWhole(txbuf, arg);
      assert arg[..MESSAGE_SIZE] == m;
      Dispatch(txbuf, txdata, rxdata, rxbuf);
      CopyWhole(arg, rxbuf);
      assert rxbuf[..MESSAGE_SIZE] == rxbuf[..];
      SessionAppend(sent, m, slave, 0);
      assert (sent + [m])[|sent|] == m;
      sent := sent + [m];
    }
  }

  /** A reply buffer: one frame, zeros behind it. */
  function InReply(frame: seq<byte>): (r: seq<byte>)
    requires IsFrame(frame)
    ensures |r| == MESSAGE_SIZE
  {
    frame + Zeros(MESSAGE_SIZE - FRAME_SIZE)
  }

  lemma ResultInReply(rxbuf: array<byte>, frame: seq<byte>)
    requires IsFrame(frame) && rxbuf[..] == InReply(frame)
    ensures rxbuf.Length > 0 && rxbuf[0] == Result(frame)
  {
    assert rxbuf[..][0] == frame[0];
  }

  method LenOf(buf: array<byte>) returns (len: nat)
    requires HEADER_SIZE <= buf.Length
    ensures len == Len(buf[..])
  {
    len := buf[2] as int + 256 * (buf[3] as int);
  }

  method FragmentCountOf(txbuf: array<byte>) returns (count: nat)
    requires IsMessage(txbuf[..])
    ensures count == FragmentCount(Len(txbuf[..])) == |Encode(txbuf[..])|
  {
    var len := LenOf(txbuf);
    count := len / FIFO_LEN + 1;
  }

  /** A local copy of the message header with its length patched to that of fragment i. */
  method PatchHeader(txbuf: array<byte>, i: nat, count: nat) returns (header: array<byte>, len: nat)
    requires IsMessage(txbuf[..]) && count == FragmentCount(Len(txbuf[..])) && i < count
    ensures fresh(header) && len == FragmentLen(Len(txbuf[..]), i) <= FIFO_LEN
    ensures header[..] == Header(Result(txbuf[..]), CmdId(txbuf[..]), len)
  {
    header := NewBuffer(HEADER_SIZE);
    CopyWhole(header, txbuf);
    assert header[..][0] == txbuf[0] && header[..][1] == txbuf[1];
    var total := LenOf(txbuf);
    len := if i == count - 1 then total - i * FIFO_LEN else FIFO_LEN;
    header[2], header[3] := len % 256, len / 256;
  }

  /** Builds fragment i in `txdata`: cleared, then the patched header, then the slice of `para`. */
  method FillFragment(txbuf: array<byte>, txdata: array<byte>, i: nat, count: nat)
    requires txbuf != txdata && txdata.Length == FRAME_SIZE
    requires IsMessage(txbuf[..]) && count == FragmentCount(Len(txbuf[..])) && i < count
    modifies txdata
    ensures txdata[..] == Encode(txbuf[..])[i]
  {
    hide Splice, Header, Zeros;
    var header, len := PatchHeader(txbuf, i, count);
    var at := HEADER_SIZE + i * FIFO_LEN;
    Clear(txdata);
    Memcpy(txdata, 0, header, 0, HEADER_SIZE);
    assert header[0..HEADER_SIZE] == header[..];
    Memcpy(txdata, HEADER_SIZE, txbuf, at, len);
    Assemble(header[..], txbuf[at..at + len]);
    assert txbuf[..][at..at + len] == txbuf[at..at + len];
  }

  /** Header, then data, spliced into a cleared frame. */
  lemma Assemble(h: seq<byte>, data: seq<byte>)
    requires |h| == HEADER_SIZE && |data| <= FIFO_LEN
    ensures Splice(Splice(Zeros(FRAME_SIZE), 0, h), HEADER_SIZE, data) == h + data + Zeros(FIFO_LEN - |data|)
  {
  }

  lemma OneMoreRound(frame: seq<byte>, made: nat, s: Slave, p: nat)
    ensures Rounds(Repeat(frame, made + 1), COMMAND_TIMEOUT, s, p)
         == Rounds(Repeat(frame, made), COMMAND_TIMEOUT, s, p) + Round(frame, COMMAND_TIMEOUT, s, p + 2 * made)
  {
    hide Round;
    RoundsAppend(Repeat(frame, made), frame, COMMAND_TIMEOUT, s, p);
    assert Repeat(frame, made) + [frame] == Repeat(frame, made + 1);
  }

  lemma NoRounds(frame: seq<byte>, s: Slave, p: nat)
    ensures Rounds(Repeat(frame, 0), COMMAND_TIMEOUT, s, p) == []
  {
  }

  lemma NoFragments(m: seq<byte>, s: Slave, p: nat)
    requires IsMessage(m)
    ensures Rounds(Encode(m)[..0], FRAGMENT_TIMEOUT, s, p) == []
  {
  }
}
