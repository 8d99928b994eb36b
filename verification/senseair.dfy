/** The Senseair S8 CO2 sensor: `airshift_senseair_get` sends a Modbus
    "Read Input Registers" request (function 0x04, section 6.4 of the MODBUS
    Application Protocol Specification V1.1b3) for one register and decodes
    the reply by its length alone.

    The reply's framing (address, function, byte count) and its CRC-16 trailer
    are never looked at; `GetVerified` is the decoder that checks them. */
module Senseair {
  import opened Results
  import opened Common

  const RECEIVE_BUFFER_SIZE: nat := 128

  /** The request: address 0xFE (any sensor), function 0x04, start register
      0x0003, one register, CRC-16 trailer low byte first. */
  const READ_COMMAND: seq<byte> := [0xFE, 0x04, 0x00, 0x03, 0x00, 0x01, 0xD5, 0xC5]

  const ANY_ADDRESS: byte := 0xFE
  const READ_INPUT_REGISTERS: byte := 0x04

  /** The reply length the decoder demands. */
  const REPLY_LENGTH: nat := 7

  /** A read into the 128-byte array delivers at most the array length. */
  predicate WellFormedRead(read: UartRead) {
    read.Received? ==> |read.bytes| <= RECEIVE_BUFFER_SIZE
  }

  /** The return code and the `*value` output of `airshift_senseair_get`. */
  datatype Co2Reading = Co2Reading(status: int, value: u32)

  /** `airshift_senseair_get`: the output is zeroed before the request; a
      reply of any length but 7 fails with ESP_FAIL; otherwise the value is
      the big-endian register in bytes 3 and 4. */
  function Get(read: UartRead): (r: Co2Reading)
    requires WellFormedRead(read)
    ensures r.status == ESP_OK || r.status == ESP_FAIL
    ensures r.status == ESP_OK <==> BytesRead(read) == REPLY_LENGTH
    ensures r.status == ESP_FAIL ==> r.value == 0
    ensures r.status == ESP_OK ==> r.value == MakeWord(read.bytes[3], read.bytes[4])
    ensures r.value < 0x1_0000
  {
    if BytesRead(read) != REPLY_LENGTH then Co2Reading(ESP_FAIL, 0)
    else Co2Reading(ESP_OK, 256 * read.bytes[3] as int + read.bytes[4] as int)
  }

  /** The value depends on bytes 3 and 4 alone: replies that differ in the
      address, function, byte count or CRC decode identically. */
  lemma ValueIgnoresFraming(a: seq<byte>, b: seq<byte>)
    requires |a| == REPLY_LENGTH && |b| == REPLY_LENGTH
    requires a[3] == b[3] && a[4] == b[4]
    ensures Get(Received(a)) == Get(Received(b))
    ensures Get(Received(a)).status == ESP_OK
  {
  }

  /** The caller narrows the value to `uint16_t`; the value always fits, so
      the narrowing keeps it. */
  lemma NarrowingKeepsValue(read: UartRead)
    requires WellFormedRead(read)
    ensures Get(read).value % 0x1_0000 == Get(read).value
  {
  }

  // ---------------------------------------------------------------------------
  // Modbus CRC-16 (reflected polynomial 0xA001, initial value 0xFFFF)

  /** One bit of the CRC register update. */
  function CrcShift(crc: bv16): bv16 {
    if crc & 1 == 1 then (crc >> 1) ^ 0xA001 else crc >> 1
  }

  /** Folds one byte into the CRC register: xor into the low byte, then eight
      shift steps. */
  function CrcByte(crc: bv16, b: byte): bv16 {
    var c := crc ^ (b as bv16);
    CrcShift(CrcShift(CrcShift(CrcShift(CrcShift(CrcShift(CrcShift(CrcShift(c))))))))
  }

  function CrcFrom(crc: bv16, data: seq<byte>): bv16
    decreases |data|
  {
    if |data| == 0 then crc else CrcFrom(CrcByte(crc, data[0]), data[1..])
  }

  /** The Modbus CRC-16 of a message. */
  function Crc16(data: seq<byte>): (crc: u16)
  {
    CrcFrom(0xFFFF, data) as int
  }

  /** The CRC trailer as sent: low byte first. */
  function CrcTrailer(data: seq<byte>): (t: seq<byte>)
    ensures |t| == 2 && MakeWord(t[1], t[0]) == Crc16(data)
  {
    [LowByte(Crc16(data)), HighByte(Crc16(data))]
  }

  /** The request asks address 0xFE for one input register at 0x0003, and its
      trailer is the CRC of the six bytes before it. A reply to a request for
      n registers carries address, function, a byte count and 2n data bytes,
      then the CRC: 5 + 2n bytes, which for one register is the 7 the decoder
      demands. */
  lemma RequestIsReadOfOneRegister()
    ensures READ_COMMAND[0] == ANY_ADDRESS && READ_COMMAND[1] == READ_INPUT_REGISTERS
    ensures MakeWord(READ_COMMAND[2], READ_COMMAND[3]) == 3
    ensures MakeWord(READ_COMMAND[4], READ_COMMAND[5]) == 1
    ensures READ_COMMAND[6..] == CrcTrailer(READ_COMMAND[..6])
    ensures 5 + 2 * MakeWord(READ_COMMAND[4], READ_COMMAND[5]) == REPLY_LENGTH
  {
    assert READ_COMMAND[..6] == [0xFE, 0x04, 0x00, 0x03, 0x00, 0x01];
    assert Crc16([0xFE, 0x04, 0x00, 0x03, 0x00, 0x01]) == 0xC5D5;
  }

  // ---------------------------------------------------------------------------
  // The decoder that checks the reply

  /** Why a reply is rejected. */
  datatype ReplyError =
    | BadLength(count: int)
    | BadHeader
    | CrcMismatch(computed: u16, transmitted: u16)

  /** The reply a sensor sends for one register holding `v`. */
  function ReplyFrame(v: u16): (f: seq<byte>)
    ensures |f| == REPLY_LENGTH
  {
    var body := [ANY_ADDRESS, READ_INPUT_REGISTERS, 0x02, HighByte(v), LowByte(v)];
    body + CrcTrailer(body)
  }

  /** The two bytes after a five-byte reply body are its CRC trailer. */
  predicate TrailerMatches(reply: seq<byte>)
    requires |reply| == REPLY_LENGTH
  {
    reply[5..] == CrcTrailer(reply[..5])
  }

  /** Two bytes are the low-byte-first trailer of a word exactly when they
      make that word read little-endian. */
  lemma LittleEndianTrailer(lo: byte, hi: byte, w: u16)
    ensures [lo, hi] == [LowByte(w), HighByte(w)] <==> MakeWord(hi, lo) == w
  {
  }

  /** Comparing the trailer as a little-endian word against the CRC is the
      same as comparing it byte by byte. */
  lemma TrailerAsWord(reply: seq<byte>, crc: u16)
    requires |reply| == REPLY_LENGTH && crc == Crc16(reply[..5])
    ensures TrailerMatches(reply) <==> MakeWord(reply[6], reply[5]) == crc
  {
    assert reply[5..] == [reply[5], reply[6]];
    LittleEndianTrailer(reply[5], reply[6], crc);
  }

  /** The reply accepted only when it is 7 bytes long, echoes the address and
      function, carries a two-byte payload, and its trailer is the CRC-16 of
      the five bytes before it. */
  function GetVerified(read: UartRead): (r: Result<u16, ReplyError>)
    requires WellFormedRead(read)
    ensures BytesRead(read) != REPLY_LENGTH ==> r == Err(BadLength(BytesRead(read)))
    ensures r.Ok? <==>
      && read.Received? && |read.bytes| == REPLY_LENGTH
      && read.bytes[..3] == [ANY_ADDRESS, READ_INPUT_REGISTERS, 0x02]
      && TrailerMatches(read.bytes)
    ensures r.Ok? ==> Get(read) == Co2Reading(ESP_OK, r.value)
  {
    if BytesRead(read) != REPLY_LENGTH then Err(BadLength(BytesRead(read)))
    else
      var b := read.bytes;
      assert b[..3] == [b[0], b[1], b[2]];
      if b[0] != ANY_ADDRESS || b[1] != READ_INPUT_REGISTERS || b[2] != 0x02 then Err(BadHeader)
      else
        var computed := Crc16(b[..5]);
        var transmitted := MakeWord(b[6], b[5]);
        TrailerAsWord(b, computed);
        if computed != transmitted then Err(CrcMismatch(computed, transmitted))
        else Ok(MakeWord(b[3], b[4]))
  }

  /** A reply as the sensor sends it is accepted by both decoders and yields
      the register value. */
  lemma ReplyRoundTrip(v: u16)
    ensures GetVerified(Received(ReplyFrame(v))) == Ok(v)
    ensures Get(Received(ReplyFrame(v))) == Co2Reading(ESP_OK, v)
  {
    var f := ReplyFrame(v);
    assert f[..3] == [ANY_ADDRESS, READ_INPUT_REGISTERS, 0x02];
    assert f[..5] == [ANY_ADDRESS, READ_INPUT_REGISTERS, 0x02, HighByte(v), LowByte(v)];
    assert f[3] == HighByte(v) && f[4] == LowByte(v);
  }

  /** A reply whose CRC trailer is wrong (two zero bytes where 0xAD 0x33
      belongs) is reported as 500 ppm by the decoder as written, and rejected
      by the checking decoder. */
  lemma CorruptReplyAccepted()
    ensures var bytes := [ANY_ADDRESS, READ_INPUT_REGISTERS, 0x02, 0x01, 0xF4, 0x00, 0x00];
      && Get(Received(bytes)) == Co2Reading(ESP_OK, 500)
      && GetVerified(Received(bytes)) == Err(CrcMismatch(0x33AD, 0))
  {
    var bytes: seq<byte> := [ANY_ADDRESS, READ_INPUT_REGISTERS, 0x02, 0x01, 0xF4, 0x00, 0x00];
    assert bytes[..5] == [0xFE, 0x04, 0x02, 0x01, 0xF4];
    assert Crc16([0xFE, 0x04, 0x02, 0x01, 0xF4]) == 0x33AD;
  }
}
