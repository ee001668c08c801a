/** Byte layout of the structures exchanged by the HAL, the driver and the ESP8266:
    a little-endian 4-byte header, a 32-byte SPI frame and a 2052-byte message, without padding. */
module Layout {

  type byte = x: int | 0 <= x < 256

  const SUCCESS: byte := 0x55
  const DATA_READ: byte := 0xaa
  const RH_LEN := 4
  const FIFO_LEN := 28
  const DATA_LEN := 2048
  const HEADER_SIZE := 4
  const FRAME_SIZE := 32
  const MESSAGE_SIZE := 2052
  const READ_SIZE := FRAME_SIZE + RH_LEN

  function Zeros(n: nat): (s: seq<byte>)
    ensures |s| == n
    ensures forall i :: 0 <= i < n ==> s[i] == 0
  {
    seq(n, i => 0)
  }

  predicate IsFrame(f: seq<byte>) {
    |f| == FRAME_SIZE
  }

  /** A message whose length field stays inside its payload area. */
  predicate IsMessage(m: seq<byte>) {
    && |m| == MESSAGE_SIZE
    && Len(m) <= DATA_LEN
  }

  /** `header.result` of a frame or message. */
  function Result(b: seq<byte>): byte
    requires HEADER_SIZE <= |b|
  {
    b[0]
  }

  /** `header.id` of a frame or message. */
  function CmdId(b: seq<byte>): byte
    requires HEADER_SIZE <= |b|
  {
    b[1]
  }

  /** `header.len` of a frame or message: a little-endian uint16. */
  function Len(b: seq<byte>): (n: nat)
    requires HEADER_SIZE <= |b|
    ensures n < 0x1_0000
  {
    b[2] as int + 256 * (b[3] as int)
  }

  function Header(result: byte, id: byte, len: nat): (h: seq<byte>)
    requires len < 0x1_0000
    ensures |h| == HEADER_SIZE
    ensures Result(h) == result && CmdId(h) == id && Len(h) == len
  {
    [result, id, len % 256, len / 256]
  }

  /** Two headers with the same fields are the same four bytes. */
  lemma HeaderIsItsFields(b: seq<byte>)
    requires HEADER_SIZE <= |b|
    ensures b[..HEADER_SIZE] == Header(Result(b), CmdId(b), Len(b))
  {
    assert Len(b) % 256 == b[2];
    assert Len(b) / 256 == b[3];
  }

  function Payload(m: seq<byte>): (p: seq<byte>)
    requires IsMessage(m)
    ensures |p| == Len(m)
  {
    m[HEADER_SIZE..HEADER_SIZE + Len(m)]
  }

  /** What the HAL guarantees by clearing the message before filling it. */
  predicate ZeroBeyondLen(m: seq<byte>)
    requires IsMessage(m)
  {
    forall i :: HEADER_SIZE + Len(m) <= i < MESSAGE_SIZE ==> m[i] == 0
  }

  /** The C string that starts at the head of `b`: everything before the first zero byte. */
  function CString(b: seq<byte>): (s: seq<byte>)
    ensures |s| <= |b| && s == b[..|s|]
    ensures forall i :: 0 <= i < |s| ==> s[i] != 0
    ensures |s| < |b| ==> b[|s|] == 0
  {
    if b == [] || b[0] == 0 then [] else [b[0]] + CString(b[1..])
  }

  /** `CString` is the only zero-free prefix that a zero byte follows. */
  lemma {:induction false} CStringIs(b: seq<byte>, text: seq<byte>)
    requires text < b && b[|text|] == 0
    requires forall i :: 0 <= i < |text| ==> text[i] != 0
    ensures CString(b) == text
  {
    if text != [] {
      assert text[0] == b[0];
      CStringIs(b[1..], text[1..]);
    }
  }
}
