/** The fragment encoder as one function over every legal length, and the reference receiver that
    inverts it. A message always ends in a frame shorter than FIFO_LEN, so the stream delimits itself. */
module Framing {
  import opened Layout

  function FragmentCount(len: nat): nat {
    len / FIFO_LEN + 1
  }

  function FragmentLen(len: nat, i: nat): nat
    requires i < FragmentCount(len)
  {
    if i == FragmentCount(len) - 1 then len - i * FIFO_LEN else FIFO_LEN
  }

  /** Frame `i` of message `m`: the message's own result and id, the fragment's length, its slice of
      the payload area and zero padding. */
  function Fragment(m: seq<byte>, i: nat): (f: seq<byte>)
    requires IsMessage(m) && i < FragmentCount(Len(m))
    ensures IsFrame(f)
  {
    var n := FragmentLen(Len(m), i);
    var at := HEADER_SIZE + i * FIFO_LEN;
    Header(Result(m), CmdId(m), n) + m[at..at + n] + Zeros(FIFO_LEN - n)
  }

  function Encode(m: seq<byte>): (frames: seq<seq<byte>>)
    requires IsMessage(m)
    ensures |frames| == FragmentCount(Len(m))
    ensures forall i :: 0 <= i < |frames| ==> IsFrame(frames[i])
  {
    seq(FragmentCount(Len(m)), i requires 0 <= i < FragmentCount(Len(m)) => Fragment(m, i))
  }

  /** Sum of the length fields of a list of frames. */
  function TotalLen(frames: seq<seq<byte>>): nat
    requires forall i :: 0 <= i < |frames| ==> IsFrame(frames[i])
  {
    if frames == [] then 0
    else
      var last := frames[|frames| - 1];
      assert IsFrame(last);
      TotalLen(frames[..|frames| - 1]) + Len(last)
  }

  /** Every frame of an encoded message: its header fields, where its data comes from, its padding. */
  lemma FragmentFields(m: seq<byte>, i: nat)
    requires IsMessage(m) && i < FragmentCount(Len(m))
    ensures var f := Encode(m)[i];
            && Result(f) == Result(m) && CmdId(f) == CmdId(m)
            && Len(f) == (if i < Len(m) / FIFO_LEN then FIFO_LEN else Len(m) % FIFO_LEN)
            && i * FIFO_LEN + Len(f) <= Len(m) <= DATA_LEN
            && f[HEADER_SIZE..HEADER_SIZE + Len(f)] == Payload(m)[i * FIFO_LEN..i * FIFO_LEN + Len(f)]
            && forall j :: HEADER_SIZE + Len(f) <= j < FRAME_SIZE ==> f[j] == 0
  {
    var f := Encode(m)[i];
    var n := FragmentLen(Len(m), i);
    var at := HEADER_SIZE + i * FIFO_LEN;
    var h, d, z := Header(Result(m), CmdId(m), n), m[at..at + n], Zeros(FIFO_LEN - n);
    assert f == Fragment(m, i) == h + d + z;
    Layers(h, d, z);
    SameHeader(f, h);
    PayloadSlice(m, i * FIFO_LEN, n);
    forall j | HEADER_SIZE + n <= j < FRAME_SIZE
      ensures f[j] == 0
    {
      assert f[j] == z[j - HEADER_SIZE - n];
    }
  }

  lemma Layers(h: seq<byte>, d: seq<byte>, z: seq<byte>)
    ensures (h + d + z)[..|h|] == h
    ensures (h + d + z)[|h|..|h| + |d|] == d
  {
  }

  lemma SameHeader(f: seq<byte>, h: seq<byte>)
    requires |h| == HEADER_SIZE <= |f| && f[..HEADER_SIZE] == h
    ensures Result(f) == Result(h) && CmdId(f) == CmdId(h) && Len(f) == Len(h)
  {
    assert forall j :: 0 <= j < HEADER_SIZE ==> f[j] == f[..HEADER_SIZE][j];
  }

  /** The fragments carry the payload exactly once. */
  lemma {:induction false} FragmentLengthsAddUp(m: seq<byte>, n: nat)
    requires IsMessage(m) && n <= FragmentCount(Len(m))
    ensures TotalLen(Encode(m)[..n]) == if n < FragmentCount(Len(m)) then n * FIFO_LEN else Len(m)
  {
    if n > 0 {
      FragmentLengthsAddUp(m, n - 1);
      FragmentFields(m, n - 1);
      assert Encode(m)[..n][..n - 1] == Encode(m)[..n - 1];
    }
  }

  /** On a short message whose unused payload is zero, the encoder yields the raw first 32 bytes:
      the frame that the single-frame branch of the driver copies out. */
  lemma ShortMessageIsItsOwnFrame(m: seq<byte>)
    requires IsMessage(m) && Len(m) < FIFO_LEN && ZeroBeyondLen(m)
    ensures Encode(m) == [m[..FRAME_SIZE]]
  {
    HeaderIsItsFields(m);
    assert FragmentCount(Len(m)) == 1;
    assert Fragment(m, 0) == m[..FRAME_SIZE];
  }

  // ---------------------------------------------------------------- reference receiver

  datatype Command = Command(result: byte, id: byte, payload: seq<byte>)

  function CommandOf(m: seq<byte>): Command
    requires IsMessage(m)
  {
    Command(Result(m), CmdId(m), Payload(m))
  }

  /** A cleared message with these fields and this payload. */
  function Request(result: byte, id: byte, payload: seq<byte>): (m: seq<byte>)
    requires |payload| <= DATA_LEN
    ensures |m| == MESSAGE_SIZE
  {
    Header(result, id, |payload|) + payload + Zeros(DATA_LEN - |payload|)
  }

  lemma RequestFields(result: byte, id: byte, payload: seq<byte>)
    requires |payload| <= DATA_LEN
    ensures var m := Request(result, id, payload);
            && IsMessage(m) && ZeroBeyondLen(m)
            && CommandOf(m) == Command(result, id, payload)
  {
    var m := Request(result, id, payload);
    var h := Header(result, id, |payload|);
    Layers(h, payload, Zeros(DATA_LEN - |payload|));
    SameHeader(m, h);
    forall i | HEADER_SIZE + |payload| <= i < MESSAGE_SIZE
      ensures m[i] == 0
    {
      assert m[i] == Zeros(DATA_LEN - |payload|)[i - HEADER_SIZE - |payload|];
    }
  }

  /** Collects `data[..header.len]` until a frame shorter than FIFO_LEN closes the command.
      It sees frames only. */
  function Receive(frames: seq<seq<byte>>, partial: seq<byte>): seq<Command>
    requires forall i :: 0 <= i < |frames| ==> IsFrame(frames[i])
  {
    if frames == [] then []
    else
      var f := frames[0];
      assert IsFrame(f);
      if Len(f) < FIFO_LEN then
        [Command(Result(f), CmdId(f), partial + f[HEADER_SIZE..HEADER_SIZE + Len(f)])] + Receive(frames[1..], [])
      else
        Receive(frames[1..], partial + f[HEADER_SIZE..])
  }

  lemma {:induction false} ReceiveFrom(m: seq<byte>, i: nat, rest: seq<seq<byte>>)
    requires IsMessage(m) && i < FragmentCount(Len(m))
    requires forall j :: 0 <= j < |rest| ==> IsFrame(rest[j])
    ensures Receive(Encode(m)[i..] + rest, Payload(m)[..i * FIFO_LEN]) == [CommandOf(m)] + Receive(rest, [])
    decreases FragmentCount(Len(m)) - i
  {
    FragmentFields(m, i);
    var frames := Encode(m)[i..] + rest;
    var f := Encode(m)[i];
    var sofar := Payload(m)[..i * FIFO_LEN];
    assert frames[0] == f;
    assert frames[1..] == Encode(m)[i + 1..] + rest;
    if i + 1 < FragmentCount(Len(m)) {
      assert sofar + f[HEADER_SIZE..] == Payload(m)[..(i + 1) * FIFO_LEN];
      ReceiveFrom(m, i + 1, rest);
    } else {
      assert Len(f) == Len(m) % FIFO_LEN;
      assert sofar + f[HEADER_SIZE..HEADER_SIZE + Len(f)] == Payload(m);
      assert frames[1..] == rest;
    }
  }

  /** An encoded message is received whole, whatever follows it. */
  lemma ReceiveEncoded(m: seq<byte>, rest: seq<seq<byte>>)
    requires IsMessage(m)
    requires forall j :: 0 <= j < |rest| ==> IsFrame(rest[j])
    ensures Receive(Encode(m) + rest, []) == [CommandOf(m)] + Receive(rest, [])
  {
    assert Encode(m)[0..] == Encode(m) && Payload(m)[..0] == [];
    ReceiveFrom(m, 0, rest);
  }

  lemma ReceiveClosing(f: seq<byte>, c: Command, partial: seq<byte>, rest: seq<seq<byte>>)
    requires IsFrame(f) && Len(f) < FIFO_LEN
    requires c == Command(Result(f), CmdId(f), partial + f[HEADER_SIZE..HEADER_SIZE + Len(f)])
    requires forall j :: 0 <= j < |rest| ==> IsFrame(rest[j])
    ensures Receive([f] + rest, partial) == [c] + Receive(rest, [])
  {
    assert ([f] + rest)[1..] == rest;
  }

  /** A short message sent raw is received whole too, even if bytes beyond its length are not zero. */
  lemma ReceiveRaw(m: seq<byte>, rest: seq<seq<byte>>)
    requires IsMessage(m) && Len(m) < FIFO_LEN
    requires forall j :: 0 <= j < |rest| ==> IsFrame(rest[j])
    ensures Receive([m[..FRAME_SIZE]] + rest, []) == [CommandOf(m)] + Receive(rest, [])
  {
    hide Receive, CommandOf, Payload, Len, Result, CmdId;
    RawCommand(m);
    ReceiveClosing(m[..FRAME_SIZE], CommandOf(m), [], rest);
  }

  lemma RawCommand(m: seq<byte>)
    requires IsMessage(m) && Len(m) < FIFO_LEN
    ensures var f := m[..FRAME_SIZE];
            && IsFrame(f) && Len(f) == Len(m)
            && Command(Result(f), CmdId(f), [] + f[HEADER_SIZE..HEADER_SIZE + Len(f)]) == CommandOf(m)
  {
    var f := m[..FRAME_SIZE];
    assert f[..HEADER_SIZE] == m[..HEADER_SIZE];
    SameHeader(f, m[..HEADER_SIZE]);
    SameHeader(m, m[..HEADER_SIZE]);
    SliceOfSlice(m, 0, FRAME_SIZE, HEADER_SIZE, HEADER_SIZE + Len(m));
    assert f == m[0..FRAME_SIZE];
  }

  lemma SliceOfSlice(m: seq<byte>, a: nat, b: nat, i: nat, j: nat)
    requires a <= b <= |m| && i <= j <= b - a
    ensures m[a..b][i..j] == m[a + i..a + j]
  {
    var x, y := m[a..b][i..j], m[a + i..a + j];
    assert |x| == |y| == j - i;
    assert forall k :: 0 <= k < j - i ==> x[k] == m[a..b][i + k] == m[a + i + k] == y[k];
  }

  /** The concatenated frame stream of a list of messages. */
  function Stream(ms: seq<seq<byte>>): (frames: seq<seq<byte>>)
    requires forall i :: 0 <= i < |ms| ==> IsMessage(ms[i])
    ensures forall i :: 0 <= i < |frames| ==> IsFrame(frames[i])
  {
    if ms == [] then [] else Encode(ms[0]) + Stream(ms[1..])
  }

  function Commands(ms: seq<seq<byte>>): (cs: seq<Command>)
    requires forall i :: 0 <= i < |ms| ==> IsMessage(ms[i])
    ensures |cs| == |ms|
    ensures forall i :: 0 <= i < |cs| ==> cs[i] == CommandOf(ms[i])
  {
    seq(|ms|, i requires 0 <= i < |ms| => CommandOf(ms[i]))
  }

  lemma ReceiveNothing()
    ensures Receive([], []) == []
  {
  }

  /** Decoding the concatenated stream gives back exactly the list that was sent. */
  lemma {:induction false} ReceiveStream(ms: seq<seq<byte>>)
    requires forall i :: 0 <= i < |ms| ==> IsMessage(ms[i])
    ensures Receive(Stream(ms), []) == Commands(ms)
  {
    hide Encode, Receive;
    if ms == [] {
      ReceiveNothing();
    } else {
      ReceiveStream(ms[1..]);
      ReceiveEncoded(ms[0], Stream(ms[1..]));
      assert Commands(ms) == [CommandOf(ms[0])] + Commands(ms[1..]);
    }
  }

  /** A message with a clean tail is determined by the command it carries. */
  lemma CommandDeterminesMessage(a: seq<byte>, b: seq<byte>)
    requires IsMessage(a) && IsMessage(b) && ZeroBeyondLen(a) && ZeroBeyondLen(b)
    requires CommandOf(a) == CommandOf(b)
    ensures a == b
  {
    assert Len(a) == |Payload(a)| == |Payload(b)| == Len(b);
    HeaderIsItsFields(a);
    HeaderIsItsFields(b);
    forall i | 0 <= i < MESSAGE_SIZE
      ensures a[i] == b[i]
    {
      if i < HEADER_SIZE {
        assert a[..HEADER_SIZE][i] == b[..HEADER_SIZE][i];
      } else if i < HEADER_SIZE + Len(a) {
        assert Payload(a)[i - HEADER_SIZE] == Payload(b)[i - HEADER_SIZE];
      }
    }
  }

  /** Unique decodability: two lists of messages share a wire stream exactly when they carry the
      same commands. */
  lemma StreamIsUniquelyDecodable(a: seq<seq<byte>>, b: seq<seq<byte>>)
    requires forall i :: 0 <= i < |a| ==> IsMessage(a[i])
    requires forall i :: 0 <= i < |b| ==> IsMessage(b[i])
    ensures Stream(a) == Stream(b) <==> Commands(a) == Commands(b)
  {
    ReceiveStream(a);
    ReceiveStream(b);
    if Commands(a) == Commands(b) {
      SameCommandsSameStream(a, b);
    }
  }

  lemma EncodeDependsOnCommand(a: seq<byte>, b: seq<byte>)
    requires IsMessage(a) && IsMessage(b) && CommandOf(a) == CommandOf(b)
    ensures Encode(a) == Encode(b)
  {
    assert Len(a) == |Payload(a)| == |Payload(b)| == Len(b);
    forall i | 0 <= i < FragmentCount(Len(a))
      ensures Fragment(a, i) == Fragment(b, i)
    {
      FragmentFields(a, i);
      PayloadSlice(a, i * FIFO_LEN, FragmentLen(Len(a), i));
      PayloadSlice(b, i * FIFO_LEN, FragmentLen(Len(a), i));
    }
  }

  lemma PayloadSlice(m: seq<byte>, at: nat, n: nat)
    requires IsMessage(m) && at + n <= Len(m)
    ensures m[HEADER_SIZE + at..HEADER_SIZE + at + n] == Payload(m)[at..at + n]
  {
    SliceOfSlice(m, HEADER_SIZE, HEADER_SIZE + Len(m), at, at + n);
  }

  lemma {:induction false} SameCommandsSameStream(a: seq<seq<byte>>, b: seq<seq<byte>>)
    requires forall i :: 0 <= i < |a| ==> IsMessage(a[i])
    requires forall i :: 0 <= i < |b| ==> IsMessage(b[i])
    requires Commands(a) == Commands(b)
    ensures Stream(a) == Stream(b)
  {
    hide Encode;
    assert |a| == |Commands(a)| == |Commands(b)| == |b|;
    if a != [] {
      assert CommandOf(a[0]) == Commands(a)[0] == Commands(b)[0] == CommandOf(b[0]);
      EncodeDependsOnCommand(a[0], b[0]);
      assert Commands(a[1..]) == Commands(a)[1..] == Commands(b)[1..] == Commands(b[1..]);
      SameCommandsSameStream(a[1..], b[1..]);
    }
  }
}
