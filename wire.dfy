/** The P2P wire header: 4-byte network magic, 12-byte command, little-endian
    32-bit payload length and 4-byte checksum, 24 bytes in all, followed by the
    payload. CNode::EndMessage fills in the length and the checksum of a message
    whose header was written with a zero length. */
module Wire {
  import opened NetTypes

  const MESSAGE_START_SIZE: nat := 4
  const COMMAND_SIZE: nat := 12
  const MESSAGE_SIZE_OFFSET: nat := 16
  const CHECKSUM_OFFSET: nat := 20
  const CHECKSUM_SIZE: nat := 4
  const HEADER_SIZE: nat := 24

  /** The 32-byte double SHA-256 digest that `Hash` returns. */
  type Hash256 = s: seq<Byte> | |s| == 32 witness seq(32, _ => 0)

  datatype MessageHeader = MessageHeader(
    messageStart: seq<Byte>,
    command: seq<Byte>,
    nMessageSize: U32,
    checksum: seq<Byte>)
  {
    predicate WellFormed()
    {
      |messageStart| == MESSAGE_START_SIZE && |command| == COMMAND_SIZE && |checksum| == CHECKSUM_SIZE
    }
  }

  /** WriteLE32: the four bytes of x, least significant first. */
  function EncodeLE32(x: U32): (r: seq<Byte>)
    ensures |r| == 4
  {
    [x % 256, (x / 256) % 256, (x / 65536) % 256, x / 16777216]
  }

  /** ReadLE32: the uint32_t whose little-endian bytes are b. */
  function DecodeLE32(b: seq<Byte>): (r: U32)
    requires |b| == 4
  {
    b[0] as int + 256 * (b[1] as int) + 65536 * (b[2] as int) + 16777216 * (b[3] as int)
  }

  lemma DecodeEncodeLE32(x: U32)
    ensures DecodeLE32(EncodeLE32(x)) == x
  {
    var b := EncodeLE32(x);
    assert x == x % 256 + 256 * ((x / 256) % 256) + 65536 * ((x / 65536) % 256) + 16777216 * (x / 16777216);
  }

  lemma EncodeDecodeLE32(b: seq<Byte>)
    requires |b| == 4
    ensures EncodeLE32(DecodeLE32(b)) == b
  {
    var x := DecodeLE32(b);
    var lo1 := b[0] as int;
    var lo2 := lo1 + 256 * (b[1] as int);
    var lo3 := lo2 + 65536 * (b[2] as int);
    DivModExact(lo3, b[3] as int, 16777216);
    DivModExact(lo2, (b[2] as int) + 256 * (b[3] as int), 65536);
    DivModExact(lo1, (b[1] as int) + 256 * ((b[2] as int) + 256 * (b[3] as int)), 256);
    DivModExact(b[1] as int, (b[2] as int) + 256 * (b[3] as int), 256);
    DivModExact(b[2] as int, b[3] as int, 256);
  }

  /** Dividing lo + d * hi by d, with lo below d, gives hi and leaves lo. */
  lemma DivModExact(lo: int, hi: int, d: int)
    requires 0 <= lo < d && 0 <= hi
    ensures (lo + d * hi) / d == hi && (lo + d * hi) % d == lo
  {
    var n := lo + d * hi;
    var q, r := n / d, n % d;
    assert d * q + r == n && 0 <= r < d;
    assert d * (q - hi) == lo - r;
    if q > hi {
      MulAtLeast(d, q - hi);
    } else if q < hi {
      MulAtLeast(d, hi - q);
    }
  }

  lemma MulAtLeast(d: int, k: int)
    requires d > 0 && k >= 1
    ensures d * k >= d
  {
  }

  function SerializeHeader(h: MessageHeader): (r: seq<Byte>)
    requires h.WellFormed()
    ensures |r| == HEADER_SIZE
    ensures r[MESSAGE_SIZE_OFFSET..CHECKSUM_OFFSET] == EncodeLE32(h.nMessageSize)
  {
    h.messageStart + h.command + EncodeLE32(h.nMessageSize) + h.checksum
  }

  /** The field-by-field reading of a 24-byte header buffer. */
  function ParseHeader(b: seq<Byte>): (h: MessageHeader)
    requires |b| == HEADER_SIZE
    ensures h.WellFormed()
  {
    MessageHeader(b[..MESSAGE_START_SIZE], b[MESSAGE_START_SIZE..MESSAGE_SIZE_OFFSET],
                  DecodeLE32(b[MESSAGE_SIZE_OFFSET..CHECKSUM_OFFSET]), b[CHECKSUM_OFFSET..])
  }

  lemma ParseSerializeHeader(h: MessageHeader)
    requires h.WellFormed()
    ensures ParseHeader(SerializeHeader(h)) == h
  {
    var b := SerializeHeader(h);
    assert b[..4] == h.messageStart;
    assert b[4..16] == h.command;
    DecodeEncodeLE32(h.nMessageSize);
    assert b[20..] == h.checksum;
  }

  lemma SerializeParseHeader(b: seq<Byte>)
    requires |b| == HEADER_SIZE
    ensures SerializeHeader(ParseHeader(b)) == b
  {
    EncodeDecodeLE32(b[16..20]);
    assert b == b[..4] + b[4..16] + b[16..20] + b[20..];
  }

  /** The payload length EndMessage writes: ssSend.size() - HEADER_SIZE,
      truncated to the 32 bits of an unsigned int. */
  function PayloadSizeField(ssSend: seq<Byte>): U32
    requires |ssSend| >= HEADER_SIZE
  {
    (|ssSend| - HEADER_SIZE) % TWO_TO_THE_32
  }

  /** The framed block EndMessage queues: the header bytes of ssSend with the
      length field and the checksum (the first 4 bytes of the double SHA-256
      of the payload) written in. */
  function FinishMessage(ssSend: seq<Byte>, hash: seq<Byte> -> Hash256): (r: seq<Byte>)
    requires |ssSend| >= HEADER_SIZE
    ensures |r| == |ssSend|
    ensures r[..MESSAGE_SIZE_OFFSET] == ssSend[..MESSAGE_SIZE_OFFSET]
    ensures r[HEADER_SIZE..] == ssSend[HEADER_SIZE..]
  {
    ssSend[..MESSAGE_SIZE_OFFSET] + EncodeLE32(PayloadSizeField(ssSend))
      + hash(ssSend[HEADER_SIZE..])[..CHECKSUM_SIZE] + ssSend[HEADER_SIZE..]
  }

  /** Reading back the header of a finished message recovers the magic and
      command it was begun with, the payload length (when that length fits in
      32 bits) and the checksum of the payload. */
  lemma FinishedHeaderParses(ssSend: seq<Byte>, hash: seq<Byte> -> Hash256)
    requires |ssSend| >= HEADER_SIZE
    requires |ssSend| - HEADER_SIZE < TWO_TO_THE_32
    ensures var h := ParseHeader(FinishMessage(ssSend, hash)[..HEADER_SIZE]);
      && h.messageStart == ssSend[..MESSAGE_START_SIZE]
      && h.command == ssSend[MESSAGE_START_SIZE..MESSAGE_SIZE_OFFSET]
      && h.nMessageSize == |ssSend| - HEADER_SIZE
      && h.checksum == hash(ssSend[HEADER_SIZE..])[..CHECKSUM_SIZE]
  {
    var r := FinishMessage(ssSend, hash);
    var sizeBytes := EncodeLE32(PayloadSizeField(ssSend));
    assert r[..HEADER_SIZE][MESSAGE_SIZE_OFFSET..CHECKSUM_OFFSET] == sizeBytes;
    DecodeEncodeLE32(PayloadSizeField(ssSend));
  }
}
