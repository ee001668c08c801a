/** The HAL methods that build a message, hand it to the driver and read the verdict or the text back. */
module WifiProbePort {
  import opened Layout
  import opened Framing
  import opened Wire
  import opened BusBytes
  import opened Delivery
  import opened EspDriver
  import opened Decimal
  import opened Options

  const AT_M2S_UPGRADE: byte := 0
  const AT_M2S_SET_RATE: byte := 1
  const AT_M2S_GET_DATA: byte := 2
  const AT_M2S_GET_VER: byte := 3
  const AT_M2S_SET_FIRMWARE_SIZE: byte := 4
  const AT_M2S_START_SEARCH: byte := 5
  const AT_M2S_STOP_SEARCH: byte := 6
  const AT_M2S_UPGRADE_DONE: byte := 7
  const AT_M2S_GET_DATA_END_RSP: byte := 12
  const AT_M2S_GET_VER_RSP: byte := 13

  datatype ProbeData = ProbeData(state: byte, kind: string, result: seq<byte>)

  /** An int32 assigned to the uint16 `header.len`. */
  function LowHalf(len: int32): (n: nat)
    ensures n < 0x1_0000
    ensures 0 <= len < 0x1_0000 ==> n == len
  {
    len % 0x1_0000
  }

  /** memset, header.result, header.id. */
  method NewMessage(result: byte, id: byte) returns (msg: array<byte>)
    ensures fresh(msg)
    ensures msg[..] == Request(result, id, [])
  {
    msg := NewBuffer(MESSAGE_SIZE);
    msg[0], msg[1] := result, id;
    assert msg[..] == Request(result, id, []);
  }

  /** Copies `payload` into `para` and sets header.len. */
  method PutPayload(msg: array<byte>, ghost result: byte, ghost id: byte, payload: seq<byte>)
    requires |payload| <= DATA_LEN && msg[..] == Request(result, id, [])
    modifies msg
    ensures msg[..] == Request(result, id, payload)
  {
    ghost var before := msg[..];
    assert before[0] == result && before[1] == id;
    assert forall j :: HEADER_SIZE <= j < MESSAGE_SIZE ==> before[j] == 0;
    for i := 0 to |payload|
      invariant forall j :: 0 <= j < msg.Length && !(HEADER_SIZE <= j < HEADER_SIZE + i) ==> msg[j] == before[j]
      invariant forall j :: HEADER_SIZE <= j < HEADER_SIZE + i ==> msg[j] == payload[j - HEADER_SIZE]
    {
      msg[HEADER_SIZE + i] := payload[i];
    }
    msg[2], msg[3] := |payload| % 256, |payload| / 256;
    assert msg[..] == Request(result, id, payload);
  }

  /** strlen(msg.para). */
  method Strlen(msg: array<byte>) returns (len: nat)
    requires msg.Length == MESSAGE_SIZE && |CString(msg[HEADER_SIZE..])| < DATA_LEN
    ensures len == |CString(msg[HEADER_SIZE..])|
  {
    len := 0;
    ghost var para := msg[HEADER_SIZE..];
    while msg[HEADER_SIZE + len] != 0
      invariant len <= |CString(para)|
      decreases |CString(para)| - len
    {
      assert para[len] == msg[HEADER_SIZE + len];
      len := len + 1;
    }
    assert para[len] == msg[HEADER_SIZE + len];
  }

  /** Reads the C string that starts at `para`. */
  method ParaString(msg: array<byte>) returns (text: seq<byte>)
    requires msg.Length == MESSAGE_SIZE && |CString(msg[HEADER_SIZE..])| < DATA_LEN
    ensures text == CString(msg[HEADER_SIZE..])
  {
    var len := Strlen(msg);
    text := msg[HEADER_SIZE..HEADER_SIZE + len];
    assert text == msg[HEADER_SIZE..][..len];
  }

  class Port {
    const mDevice: EspDevice?

    constructor (device: EspDevice?)
      ensures mDevice == device
    {
      mDevice := device;
    }

    ghost function Footprint(): set<object> {
      if mDevice == null then {} else {mDevice}
    }

    ghost predicate Ready()
      reads Footprint()
    {
      mDevice != null ==> mDevice.Valid()
    }

    /** Passes a message down and turns the result byte into the verdict. */
    method Submit(msg: array<byte>) returns (ret: int)
      requires mDevice != null && mDevice.Valid() && IsMessage(msg[..])
      modifies mDevice, msg
      ensures mDevice.Valid()
      ensures mDevice.sent == old(mDevice.sent) + [old(msg[..])]
      ensures mDevice.trace == old(mDevice.trace) + SendOps(old(msg[..]), mDevice.slave, old(mDevice.transfers))
      ensures ret == 0 || ret == -1
      ensures ret == 0 <==> Acknowledged(old(msg[..]), SendOps(old(msg[..]), mDevice.slave, old(mDevice.transfers)))
    {
      ret := -1;
      VerdictIsFresh(msg[..], mDevice.slave, mDevice.transfers);
      hide SendOps, Reply, Session, SessionTransfers, SendTransfers;
      mDevice.EspSpiSend(msg);
      assert msg[..][0] == msg[0];
      if msg[0] == SUCCESS {
        ret := 0;
      }
    }

    /** Common contract of the command methods, for one payload. A payload below 28 bytes goes out as one
        and the same transfer in every attempt: 02 00, result 0, id, length, payload, zeros. A longer one
        goes out in chunks of 28 bytes and a shorter last one, which may be empty. */
    method Execute(id: byte, payload: seq<byte>) returns (ret: int)
      requires mDevice != null && mDevice.Valid() && |payload| <= DATA_LEN
      modifies mDevice
      ensures mDevice.Valid()
      ensures mDevice.sent == old(mDevice.sent) + [Request(0, id, payload)]
      ensures old(mDevice.trace) <= mDevice.trace
      ensures ret == 0 || ret == -1
      ensures ret == 0 <==> PayloadAcknowledged(payload, mDevice.trace[|old(mDevice.trace)|..])
      ensures |payload| < 28 ==> WritesOnly(mDevice.trace[|old(mDevice.trace)|..], TextTransfer(id, payload))
      ensures |payload| >= 28 ==> WritesChunks(mDevice.trace[|old(mDevice.trace)|..], id, payload)
    {
      hide SendOps, Session, SessionTransfers, SendTransfers, TextTransfer, WritesOnly, PayloadAcknowledged;
      hide WritesChunks;
      var msg := NewMessage(0, id);
      PutPayload(msg, 0, id, payload);
      RequestFields(0, id, payload);
      ghost var ops := SendOps(msg[..], mDevice.slave, mDevice.transfers);
      AcknowledgedPayload(id, payload, ops);
      if |payload| < 28 {
        TextOnTheBus(id, payload, mDevice.slave, mDevice.transfers);
      } else {
        ChunksOnTheBus(id, payload, mDevice.slave, mDevice.transfers);
      }
      ret := Submit(msg);
      assert mDevice.trace[|old(mDevice.trace)|..] == ops;
    }

    /** `wifi_probe_start_search` (id 5) and `wifi_probe_stop_search` (id 6): an empty payload. */
    method Search(start: bool) returns (ret: int)
      requires Ready()
      modifies Footprint()
      ensures Ready()
      ensures mDevice == null ==> ret == -1
      ensures mDevice != null ==>
        && mDevice.sent == old(mDevice.sent) + [Request(0, if start then 5 else 6, [])]
        && old(mDevice.trace) <= mDevice.trace && (ret == 0 || ret == -1)
        && var ops := mDevice.trace[|old(mDevice.trace)|..];
        && (ret == 0 <==> SomeReadGood(ops))
        && WritesOnly(ops, [0x02, 0x00, 0, if start then 5 else 6, 0, 0] + seq(28, _ => 0))
    {
      if mDevice == null {
        return -1;
      }
      assert TextTransfer(if start then 5 else 6, []) ==
        [0x02, 0x00, 0, if start then 5 else 6, 0, 0] + seq(28, _ => 0);
      ret := Execute(if start then AT_M2S_START_SEARCH else AT_M2S_STOP_SEARCH, []);
    }

    /** `wifi_probe_start_firmware_upgrade`. Only the low 16 bits of the length count; what they ask for
        has to fit the vector and the message. */
    method StartFirmwareUpgrade(data: seq<byte>, len: int32) returns (ret: int)
      requires Ready()
      requires mDevice != null ==> LowHalf(len) <= DATA_LEN && LowHalf(len) <= |data|
      modifies Footprint()
      ensures Ready()
      ensures mDevice == null ==> ret == -1
      ensures mDevice != null ==>
        && mDevice.sent == old(mDevice.sent) + [Request(0, 0, data[..LowHalf(len)])]
        && old(mDevice.trace) <= mDevice.trace && (ret == 0 || ret == -1)
        && var payload, ops := data[..LowHalf(len)], mDevice.trace[|old(mDevice.trace)|..];
        && (ret == 0 <==> PayloadAcknowledged(payload, ops))
        && (if |payload| < 28 then WritesOnly(ops, TextTransfer(0, payload)) else WritesChunks(ops, 0, payload))
    {
      if mDevice == null {
        return -1;
      }
      ret := Execute(AT_M2S_UPGRADE, data[..LowHalf(len)]);
    }

    /** A number goes out as decimal text. */
    method SendNumber(id: byte, n: int32) returns (ret: int)
      requires Ready()
      modifies Footprint()
      ensures Ready()
      ensures NumberContract(id, n, ret)
    {
      TextLength(n);
      if mDevice == null {
        return -1;
      }
      ret := Execute(id, Text(n));
    }

    /** Sent once with a fresh verdict, in at most 11 characters that fill one transfer. */
    twostate predicate NumberContract(id: byte, n: int32, ret: int)
      reads Footprint()
    {
      && (mDevice == null ==> ret == -1)
      && |Text(n)| <= 11
      && (mDevice != null ==>
            && mDevice.sent == old(mDevice.sent) + [Request(0, id, Text(n))]
            && old(mDevice.trace) <= mDevice.trace && (ret == 0 || ret == -1)
            && var ops := mDevice.trace[|old(mDevice.trace)|..];
            && (ret == 0 <==> SomeReadGood(ops))
            && WritesOnly(ops, TextTransfer(id, Text(n))))
    }

    /** `wifi_probe_set_rate`. */
    method SetRate(rate: int32) returns (ret: int)
      requires Ready()
      modifies Footprint()
      ensures Ready() && NumberContract(1, rate, ret)
    {
      ret := SendNumber(AT_M2S_SET_RATE, rate);
    }

    /** `wifi_probe_set_firmware_size`. */
    method SetFirmwareSize(size: int32) returns (ret: int)
      requires Ready()
      modifies Footprint()
      ensures Ready() && NumberContract(4, size, ret)
    {
      ret := SendNumber(AT_M2S_SET_FIRMWARE_SIZE, size);
    }

    /** `wifi_probe_set_firmware_done`. */
    method SetFirmwareDone(size: int32) returns (ret: int)
      requires Ready()
      modifies Footprint()
      ensures Ready() && NumberContract(7, size, ret)
    {
      ret := SendNumber(AT_M2S_UPGRADE_DONE, size);
    }

    /** Sends one request and leaves the reply in `msg`. What is in it comes from the last read of this
        call: result, id and a text of at most 28 bytes. */
    method Fetch(msg: array<byte>, ghost m: seq<byte>) returns (text: seq<byte>)
      requires mDevice != null && mDevice.Valid() && IsMessage(m) && msg[..] == m
      modifies mDevice, msg
      ensures mDevice.Valid() && mDevice.sent == old(mDevice.sent) + [m]
      ensures msg.Length == 2052 && old(mDevice.trace) <= mDevice.trace
      ensures IsFetched(msg[0], msg[1], text, LastResponse(mDevice.trace[|old(mDevice.trace)|..]))
    {
      hide SendOps, Reply, Session, SessionTransfers, SendTransfers, LastResponse, IsFetched;
      ReplyStringIsBounded(m, mDevice.slave, mDevice.transfers);
      ReplyIsFetched(m, mDevice.slave, mDevice.transfers);
      ghost var ops := SendOps(m, mDevice.slave, mDevice.transfers);
      mDevice.EspSpiSend(msg);
      assert mDevice.trace[|old(mDevice.trace)|..] == ops;
      assert msg[..][HEADER_SIZE..] == msg[HEADER_SIZE..] && msg[..][0] == msg[0] && msg[..][1] == msg[1];
      text := ParaString(msg);
    }

    /** `wifi_probe_get_version`: no callback without a device; with one, the text behind the header of
        the last response of this call, or nothing if that transfer failed. */
    method GetVersion() returns (version: Option<seq<byte>>)
      requires Ready()
      modifies Footprint()
      ensures Ready()
      ensures version.None? <==> mDevice == null
      ensures version.Some? ==>
        && |version.value| <= 28 && mDevice.sent == old(mDevice.sent) + [Request(0, 3, [])]
        && old(mDevice.trace) <= mDevice.trace
        && var r := LastResponse(mDevice.trace[|old(mDevice.trace)|..]);
        && (r.Failed? ==> version.value == [])
        && (r.Shifted? ==> |r.rx| == 36 && IsTextOf(version.value, r.rx[6..34]))
    {
      if mDevice == null {
        return None;
      }
      hide Session, SessionTransfers, LastResponse, IsTextOf;
      var msg := NewMessage(0, AT_M2S_GET_VER);
      RequestFields(0, AT_M2S_GET_VER, []);
      var text := Fetch(msg, Request(0, AT_M2S_GET_VER, []));
      version := Some(text);
    }

    /** `wifi_probe_get_data`: state, kind and text as the last response of this call has them. */
    method GetData() returns (data: Option<ProbeData>)
      requires Ready()
      modifies Footprint()
      ensures Ready()
      ensures data.None? <==> mDevice == null
      ensures data.Some? ==>
        && |data.value.result| <= 28 && mDevice.sent == old(mDevice.sent) + [Request(0xaa, 2, [])]
        && old(mDevice.trace) <= mDevice.trace
        && var r := LastResponse(mDevice.trace[|old(mDevice.trace)|..]);
        && (r.Failed? ==> data.value == ProbeData(0, "transfer", []))
        && (r.Shifted? ==>
              && |r.rx| == 36 && data.value.state == r.rx[2]
              && data.value.kind == (if r.rx[3] == 13 then "version"
                                     else if r.rx[3] == 12 then "transfer_done" else "transfer")
              && IsTextOf(data.value.result, r.rx[6..34]))
    {
      if mDevice == null {
        return None;
      }
      hide Session, SessionTransfers, LastResponse, IsTextOf;
      var msg := NewMessage(DATA_READ, AT_M2S_GET_DATA);
      RequestFields(DATA_READ, AT_M2S_GET_DATA, []);
      var text := Fetch(msg, Request(DATA_READ, AT_M2S_GET_DATA, []));
      var kind;
      if msg[1] == AT_M2S_GET_VER_RSP {
        kind := "version";
      } else if msg[1] == AT_M2S_GET_DATA_END_RSP {
        kind := "transfer_done";
      } else {
        kind := "transfer";
      }
      data := Some(ProbeData(msg[0], kind, text));
    }
  }

  /** The bytes before the first zero. */
  predicate IsTextOf(text: seq<byte>, b: seq<byte>) {
    && |text| <= |b| && text == b[..|text|]
    && (forall i :: 0 <= i < |text| ==> text[i] != 0)
    && (|text| < |b| ==> b[|text|] == 0)
  }

  /** What is read out of a message after a call whose last read was answered by r. */
  predicate IsFetched(result: byte, id: byte, text: seq<byte>, r: Response) {
    match r
    case Failed => result == 0 && id == 0 && text == []
    case Shifted(rx) => |rx| == 36 && result == rx[2] && id == rx[3] && IsTextOf(text, rx[6..34])
  }

  /** The C string of a reply lies in its first frame. */
  lemma TextOfReply(f: seq<byte>)
    requires |f| == 32
    ensures IsTextOf(CString((f + Zeros(2020))[4..]), f[4..32])
  {
    var b, d := (f + Zeros(2020))[4..], f[4..32];
    assert b[28] == 0 && b[..28] == d;
    var text := CString(b);
    assert |text| <= 28;
    assert text == b[..|text|] == b[..28][..|text|];
    assert |text| < 28 ==> d[|text|] == b[..28][|text|] == b[|text|];
  }

  lemma TextOfNothing(text: seq<byte>, b: seq<byte>)
    requires IsTextOf(text, b) && |b| > 0 && b[0] == 0
    ensures text == []
  {
  }

  lemma ReplyIsFetched(m: seq<byte>, s: Slave, p: nat)
    requires IsMessage(m)
    ensures var r := Reply(m, s, p);
            IsFetched(r[0], r[1], CString(r[4..]), LastResponse(SendOps(m, s, p)))
  {
    ReplyIsTheLastRead(m, s, p);
    hide SendOps, Reply, LastResponse, IsTextOf, CString;
    var r, last := Reply(m, s, p), LastResponse(SendOps(m, s, p));
    var f := RxFrame(last);
    TextOfReply(f);
    assert r[0] == f[0] && r[1] == f[1];
    match last
    case Failed => TextOfNothing(CString(r[4..]), f[4..32]);
    case Shifted(rx) => assert f[4..32] == rx[6..34];
  }

  // ---------------------------------------------------------------- requests on the bus

  /** The transfer that carries a short text: 02 00, result 0, id, length, text, zeros. */
  function TextTransfer(id: byte, text: seq<byte>): (tx: seq<byte>)
    requires |text| <= 28
    ensures |tx| == 34
  {
    [0x02, 0x00, 0, id, |text|, 0] + text + seq(28 - |text|, _ => 0)
  }

  /** Every write among these operations clocks out exactly these bytes. */
  predicate WritesOnly(ops: seq<Op>, tx: seq<byte>) {
    forall i :: 0 <= i < |ops| && ops[i].Write? ==> ops[i].tx == tx
  }

  lemma TextOnTheBus(id: byte, text: seq<byte>, s: Slave, p: nat)
    requires |text| < 28
    ensures IsMessage(Request(0, id, text)) && WritesOnly(SendOps(Request(0, id, text), s, p), TextTransfer(id, text))
  {
    var m := Request(0, id, text);
    RequestInBytes(0, id, text);
    MessageInBytes(m);
    ShortInBytes(m, s, p);
    HeadOfRequest(id, text);
    hide Request, OfThree, SendOps, SendTransfers, TextTransfer, IsMessage, IsReplyOf, Payload, Len, KindOf;
    var ops, k := SendOps(m, s, p), OfThree(s, p + 1, 2);
    forall i | 0 <= i < |ops| && ops[i].Write?
      ensures ops[i].tx == TextTransfer(id, text)
    {
      assert i > 0;
      var j := (i - 1) / 3;
      assert j < k && IsRoundAt(ops, j, m[..32], 200, s, p);
      assert i == 3 * j + 1;
    }
  }

  lemma HeadOfRequest(id: byte, text: seq<byte>)
    requires |text| < 28
    ensures [0x02, 0x00] + Request(0, id, text)[..32] == TextTransfer(id, text)
  {
    var m := Request(0, id, text);
    RequestInBytes(0, id, text);
    assert m[4..4 + |text|] == text;
    var a, b := [0x02, 0x00] + m[..32], TextTransfer(id, text);
    assert m[2] as int + 256 * m[3] as int == |text|;
    assert m[3] == 0 && m[2] == |text|;
    forall j | 0 <= j < 34
      ensures a[j] == b[j]
    {
      if 6 <= j < 6 + |text| {
        assert a[j] == m[j - 2] == m[4..4 + |text|][j - 6] == text[j - 6] == b[j];
      }
    }
  }

  /** One write for every 28 bytes and one more for the rest: 02 00, result 0, id, length, the chunk,
      zeros; each followed by its wait and its read. */
  predicate WritesChunks(ops: seq<Op>, id: byte, payload: seq<byte>) {
    && |ops| == 3 * (|payload| / 28 + 1) + 1 && ops[0] == Select(1)
    && forall i :: 0 <= i <= |payload| / 28 ==> IsChunkAt(ops, i, id, payload)
  }

  predicate IsChunkAt(ops: seq<Op>, i: nat, id: byte, payload: seq<byte>)
    requires i <= |payload| / 28
  {
    var chunk := payload[28 * i..if i < |payload| / 28 then 28 * i + 28 else |payload|];
    && 3 * i + 4 <= |ops|
    && ops[3 * i + 1].Write? && ops[3 * i + 1].tx == TextTransfer(id, chunk)
    && ops[3 * i + 2] == Wait(500) && ops[3 * i + 3].Read?
  }

  lemma ChunksOnTheBus(id: byte, payload: seq<byte>, s: Slave, p: nat)
    requires 28 <= |payload| <= 2048
    ensures IsMessage(Request(0, id, payload)) && WritesChunks(SendOps(Request(0, id, payload), s, p), id, payload)
  {
    var m := Request(0, id, payload);
    RequestInBytes(0, id, payload);
    MessageInBytes(m);
    FragmentedInBytes(m, s, p);
    hide Request, SendOps, SendTransfers, IsMessage, IsReplyOf, Payload, Len, KindOf, FragmentBytes, TextTransfer;
    var ops := SendOps(m, s, p);
    forall i | 0 <= i <= |payload| / 28
      ensures IsChunkAt(ops, i, id, payload)
    {
      ChunkOfRequest(id, payload, i);
      assert IsRoundAt(ops, i, FragmentBytes(m, i), 500, s, p);
    }
  }

  lemma ChunkOfRequest(id: byte, payload: seq<byte>, i: nat)
    requires |payload| <= 2048 && i <= |payload| / 28
    ensures IsMessage(Request(0, id, payload))
    ensures var m := Request(0, id, payload);
            var chunk := payload[28 * i..if i < |payload| / 28 then 28 * i + 28 else |payload|];
            m[2] as int + 256 * m[3] as int == |payload|
            && [0x02, 0x00] + FragmentBytes(m, i) == TextTransfer(id, chunk)
  {
    var m := Request(0, id, payload);
    RequestInBytes(0, id, payload);
    MessageInBytes(m);
    hide Request, IsMessage, FragmentBytes, TextTransfer;
    ChunkInBytes(m, id, payload, i);
  }

  lemma ChunkInBytes(m: seq<byte>, id: byte, payload: seq<byte>, i: nat)
    requires |m| == 2052 && m[0] == 0 && m[1] == id && m[2] as int + 256 * m[3] as int == |payload| <= 2048
    requires m[4..4 + |payload|] == payload && i <= |payload| / 28
    ensures var chunk := payload[28 * i..if i < |payload| / 28 then 28 * i + 28 else |payload|];
            [0x02, 0x00] + FragmentBytes(m, i) == TextTransfer(id, chunk)
  {
    var a := 28 * i;
    var b := if i < |payload| / 28 then a + 28 else |payload|;
    SliceOfSlice(m, 4, 4 + |payload|, a, b);
    var n, z := b - a, seq(28 - (b - a), _ => 0);
    assert n == if i < |payload| / 28 then 28 else |payload| % 28;
    assert FragmentBytes(m, i) == [0, id, n, 0] + m[4 + a..4 + b] + z;
    assert [0x02, 0x00] + ([0, id, n, 0] + payload[a..b] + z) == [0x02, 0x00, 0, id, n, 0] + payload[a..b] + z;
  }

  lemma AcknowledgedPayload(id: byte, payload: seq<byte>, ops: seq<Op>)
    requires |payload| <= 2048
    ensures IsMessage(Request(0, id, payload))
    ensures Acknowledged(Request(0, id, payload), ops) <==> PayloadAcknowledged(payload, ops)
  {
    RequestFields(0, id, payload);
    assert |payload| == |Payload(Request(0, id, payload))| == Len(Request(0, id, payload));
  }

  /** The slave acknowledged in these operations: after the last fragment of a fragmented payload, in
      any attempt otherwise. */
  predicate PayloadAcknowledged(payload: seq<byte>, ops: seq<Op>) {
    if |payload| >= 28 then |ops| > 0 && ops[|ops| - 1].Read? && Good(ops[|ops| - 1].response)
    else SomeReadGood(ops)
  }

  predicate Acknowledged(m: seq<byte>, ops: seq<Op>)
    requires IsMessage(m)
  {
    if KindOf(m).Fragmented? then |ops| > 0 && ops[|ops| - 1].Read? && Good(ops[|ops| - 1].response)
    else SomeReadGood(ops)
  }

  /** End to end: for every int32 the slave sees one and the same frame in each of at most three
      attempts; it holds the whole text and a terminator, and reads back as the number. */
  lemma NumberOnTheWire(id: byte, n: int32, s: Slave, p: nat)
    ensures |Text(n)| <= MAX_TEXT
    ensures var m := Request(0, id, Text(n));
            && IsMessage(m) && KindOf(m).Short?
            && var frames := FramesOf(SendOps(m, s, p));
            && 1 <= |frames| <= 3
            && forall i :: 0 <= i < |frames| ==>
                 && Receive([frames[i]], []) == [Command(0, id, Text(n))]
                 && Value(CString(frames[i][HEADER_SIZE..])) == n
  {
    TextLength(n);
    RoundTrip(n);
    TextFrame(id, Text(n));
    RequestFields(0, id, Text(n));
    var m := Request(0, id, Text(n));
    assert Len(m) == |Payload(m)| == |Text(n)|;
    hide SendOps, FramesOf, Request, Receive, CString, Text, Value, Len, CommandOf, IsFrame;
    FramesOfShortSend(m, s, p);
    var frames := FramesOf(SendOps(m, s, p));
    forall i | 0 <= i < |frames|
      ensures frames[i] == m[..FRAME_SIZE] && [frames[i]] == [m[..FRAME_SIZE]]
    {
    }
  }

  /** A data read whose last read fails echoes a cleared frame. To the slave this is the command that
      `wifi_probe_start_firmware_upgrade` sends for an empty upgrade. */
  lemma FailedDataReadSendsAnUpgrade(m: seq<byte>, s: Slave, p: nat)
    requires IsMessage(m) && KindOf(m).DataRead?
    requires !s.ok(LastRead(m, s, p)) && WritesOk(SendOps(m, s, p))
    ensures IsMessage(Request(0, AT_M2S_UPGRADE, []))
    ensures Receive(Arrived(SendOps(m, s, p)), []) == [CommandOf(Request(0, AT_M2S_UPGRADE, []))]
  {
    RequestFields(0, AT_M2S_UPGRADE, []);
    var f := EchoFrame(m, s, p);
    assert f == Zeros(FRAME_SIZE) && Len(f) == 0 && FrameData(f) == [];
    hide SendOps, Request, LastRead, EchoFrame, Receive, Arrived, FramesOf, Zeros;
    SendArrives(m, s, p);
    FramesOfSend(m, s, p);
    ReceiveSend(m, s, p, []);
    ReceiveNothing();
    assert SentFrames(m, s, p) + [] == SentFrames(m, s, p);
  }

  /** The single frame of a short text: it decodes to the text, both by length and as a C string. */
  lemma TextFrame(id: byte, text: seq<byte>)
    requires |text| < FIFO_LEN && forall i :: 0 <= i < |text| ==> text[i] != 0
    ensures var frame := Request(0, id, text)[..FRAME_SIZE];
            && Receive([frame], []) == [Command(0, id, text)]
            && CString(frame[HEADER_SIZE..]) == text
  {
    var m := Request(0, id, text);
    var frame := m[..FRAME_SIZE];
    RequestFields(0, id, text);
    assert Len(m) == |Payload(m)| == |text|;
    ReceiveRaw(m, []);
    assert [frame] + [] == [frame];
    ReceiveNothing();
    assert frame[HEADER_SIZE..] == text + Zeros(FIFO_LEN - |text|);
    hide Receive;
    CStringIs(frame[HEADER_SIZE..], text);
  }
}
