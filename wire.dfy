/**
 * Framing of the X Protocol as read by readMsg and written by writeProtobufPacket:
 * a 4-byte little-endian length, one message-type byte, then the payload.
 * The length counts the type byte and the payload.
 */
module Wire {
  type Byte = b: int | 0 <= b < 256
  type Bytes = seq<Byte>

  const HeaderSize: nat := 4
  const Two32: nat := 0x1_0000_0000

  // Server -> client message types (Mysqlx.ServerMessages)
  const ServerOk: int := 0
  const ServerError: int := 1
  const ServerConnCapabilities: int := 2
  const ServerSessAuthenticateContinue: int := 3
  const ServerSessAuthenticateOk: int := 4
  const ServerNotice: int := 11

  // Client -> server message types (Mysqlx.ClientMessages)
  const ClientConCapabilitiesGet: int := 1
  const ClientConCapabilitiesSet: int := 2
  const ClientSessAuthenticateStart: int := 4
  const ClientSessAuthenticateContinue: int := 5

  /** netProtobuf: a message type and its (still encoded) payload. */
  datatype Packet = Packet(msgType: int, payload: Bytes)

  /** Value of a little-endian byte string. */
  function LittleEndian(bs: Bytes): nat
  {
    if bs == [] then 0 else bs[0] + 256 * LittleEndian(bs[1..])
  }

  function Pow256(k: nat): (p: nat)
    ensures p >= 1
  {
    if k == 0 then 1 else 256 * Pow256(k - 1)
  }

  /** The k low-order bytes of n, least significant first: Go's byte(n), byte(n >> 8), ... */
  function LittleEndianBytes(n: nat, k: nat): (r: Bytes)
    ensures |r| == k
  {
    if k == 0 then [] else [n % 256] + LittleEndianBytes(n / 256, k - 1)
  }

  lemma ModUnique(n: nat, d: nat, q: nat, r: nat)
    requires d > 0 && n == d * q + r && r < d
    ensures n % d == r && n / d == q
  {
    var q2, r2 := n / d, n % d;
    assert d * q + r == d * q2 + r2;
    if q2 < q {
      assert d * (q - q2) == r2 - r;
      MulAtLeast(d, q - q2);
    } else if q < q2 {
      assert d * (q2 - q) == r - r2;
      MulAtLeast(d, q2 - q);
    }
  }

  lemma MulAtLeast(d: nat, a: nat)
    requires a >= 1
    ensures d * a >= d
  {
    assert d * a == d * (a - 1) + d;
  }

  lemma ModSplit(n: nat, p: nat)
    requires p >= 1
    ensures n % (256 * p) == n % 256 + 256 * ((n / 256) % p)
    ensures n / (256 * p) == (n / 256) / p
  {
    var q, r := n / 256, n % 256;
    var a, b := q / p, q % p;
    assert n == 256 * q + r;
    assert q == p * a + b;
    assert n == (256 * p) * a + (256 * b + r);
    ModUnique(n, 256 * p, a, 256 * b + r);
  }

  /** Encoding k bytes keeps n modulo 256^k: the header truncates like Go's byte conversions. */
  lemma {:induction false} LittleEndianOfBytes(n: nat, k: nat)
    ensures LittleEndian(LittleEndianBytes(n, k)) == n % Pow256(k)
  {
    if k > 0 {
      var bs := LittleEndianBytes(n, k);
      assert bs[1..] == LittleEndianBytes(n / 256, k - 1);
      LittleEndianOfBytes(n / 256, k - 1);
      ModSplit(n, Pow256(k - 1));
    }
  }

  /** Re-encoding a decoded little-endian string gives the same bytes. */
  lemma {:induction false} BytesOfLittleEndian(bs: Bytes)
    ensures LittleEndianBytes(LittleEndian(bs), |bs|) == bs
  {
    if bs != [] {
      var n := LittleEndian(bs);
      ModUnique(n, 256, LittleEndian(bs[1..]), bs[0]);
      BytesOfLittleEndian(bs[1..]);
    }
  }

  /** The four header bytes: Go's byte(n), byte(n >> 8), byte(n >> 16), byte(n >> 24). */
  lemma HeaderBytes(n: nat)
    ensures LittleEndianBytes(n, HeaderSize) == [n % 256, (n / 256) % 256, (n / 65536) % 256, (n / 16777216) % 256]
  {
    ModSplit(n, 256);
    ModSplit(n / 256, 256);
    ModSplit(n, 65536);
    var a, b, c := n / 256, n / 65536, n / 16777216;
    assert b == a / 256 && c == b / 256;
    assert LittleEndianBytes(c, 1) == [c % 256];
    assert LittleEndianBytes(b, 2) == [b % 256] + LittleEndianBytes(c, 1);
    assert LittleEndianBytes(a, 3) == [a % 256] + LittleEndianBytes(b, 2);
  }

  /** The value of a 4-byte header, as readMsg assembles it with shifts. */
  lemma HeaderValue(bs: Bytes)
    requires |bs| == HeaderSize
    ensures LittleEndian(bs) == bs[0] as int + 256 * bs[1] as int + 65536 * bs[2] as int + 16777216 * bs[3] as int
  {
    assert bs[3..][1..] == [];
    assert LittleEndian(bs[3..]) == bs[3];
    assert bs[2..][1..] == bs[3..];
    assert bs[1..][1..] == bs[2..];
    assert LittleEndian(bs[1..]) == bs[1] + 256 * LittleEndian(bs[2..]);
  }

  datatype ReadError =
    | ShortHeader           // readNext(4) failed
    | Malformed(length: nat) // header below minPacketSize
    | ShortBody(length: nat) // readNext(pktLen) failed

  /** One step of readMsg over the bytes still to be read: the packet or the error, and what is left. */
  datatype Read = Got(pkt: Packet, rest: Bytes) | Lost(err: ReadError, rest: Bytes)

  /**
   * readMsg's rule. A failed read consumes nothing; a header below the minimum
   * consumes exactly the header; a good frame consumes header and body.
   */
  function ReadFrame(input: Bytes, minSize: nat): (r: Read)
    requires minSize >= 1
    ensures |r.rest| <= |input|
    ensures r.Got? ==> |r.rest| + HeaderSize + 1 <= |input| && 0 <= r.pkt.msgType < 256
  {
    if |input| < HeaderSize then Lost(ShortHeader, input)
    else
      var length := LittleEndian(input[..HeaderSize]);
      if length < minSize then Lost(Malformed(length), input[HeaderSize..])
      else if |input| - HeaderSize < length then Lost(ShortBody(length), input[HeaderSize..])
      else Got(Packet(input[HeaderSize], input[HeaderSize + 1..HeaderSize + length]), input[HeaderSize + length..])
  }

  /**
   * A read only consumes: a missing header consumes nothing, a bad length or a
   * short body consumes exactly the header, a frame consumes header and body.
   */
  lemma ReadFrameConsumes(input: Bytes, minSize: nat)
    requires minSize >= 1
    ensures var r := ReadFrame(input, minSize);
      (r.Lost? && r.err.ShortHeader? <==> |input| < HeaderSize) &&
      (r.Lost? && r.err.ShortHeader? ==> r.rest == input) &&
      (r.Lost? && !r.err.ShortHeader? ==> r.rest == input[HeaderSize..]) &&
      (r.Got? ==> r.rest == input[|input| - |r.rest|..])
  {
  }

  /** The bytes writeProtobufPacket puts on the wire: header, type byte (Go's byte(msgType)), payload. */
  function EncodeFrame(msgType: int, payload: Bytes): (r: Bytes)
    ensures |r| == HeaderSize + 1 + |payload|
  {
    LittleEndianBytes(|payload| + 1, HeaderSize) + [msgType % 256] + payload
  }

  /** Decoding an encoded frame gives back the type and the payload, and leaves what followed. */
  lemma FrameRoundTrip(msgType: int, payload: Bytes, rest: Bytes, minSize: nat)
    requires 0 <= msgType < 256 && |payload| + 1 < Two32
    requires 1 <= minSize <= |payload| + 1
    ensures ReadFrame(EncodeFrame(msgType, payload) + rest, minSize) == Got(Packet(msgType, payload), rest)
  {
    var input := EncodeFrame(msgType, payload) + rest;
    assert input[..HeaderSize] == LittleEndianBytes(|payload| + 1, HeaderSize);
    LittleEndianOfBytes(|payload| + 1, HeaderSize);
    assert Pow256(HeaderSize) == Two32;
    assert input[HeaderSize + 1..HeaderSize + |payload| + 1] == payload;
    assert input[HeaderSize + |payload| + 1..] == rest;
  }

  /** Every frame readMsg accepts is exactly the encoding of the packet it returns. */
  lemma ReadFrameIsEncoding(input: Bytes, minSize: nat)
    requires minSize >= 1 && ReadFrame(input, minSize).Got?
    ensures var r := ReadFrame(input, minSize);
      input == EncodeFrame(r.pkt.msgType, r.pkt.payload) + r.rest
  {
    var r := ReadFrame(input, minSize);
    var header := input[..HeaderSize];
    BytesOfLittleEndian(header);
    assert LittleEndianBytes(|r.pkt.payload| + 1, HeaderSize) == header;
    assert input == header + [input[HeaderSize]] + r.pkt.payload + r.rest;
  }

  /** A header below the minimum is rejected after consuming only the 4 header bytes. */
  lemma ShortLengthIsMalformed(length: nat, body: Bytes, minSize: nat)
    requires 1 <= minSize && length < minSize && length < Two32
    ensures ReadFrame(LittleEndianBytes(length, HeaderSize) + body, minSize) == Lost(Malformed(length), body)
  {
    var input := LittleEndianBytes(length, HeaderSize) + body;
    assert input[..HeaderSize] == LittleEndianBytes(length, HeaderSize);
    LittleEndianOfBytes(length, HeaderSize);
    assert Pow256(HeaderSize) == Two32;
    assert LittleEndian(input[..HeaderSize]) == length;
    assert input[HeaderSize..] == body;
  }
}
