/** The SHT30 temperature and humidity sensor: `airshift_sht30_get` fetches a
    six-byte measurement (temperature word, its CRC, humidity word, its CRC),
    validates both CRC-8 checksums, and converts the raw words to degrees
    Celsius and percent relative humidity. */
module Sht30 {
  import opened Common

  const COMMAND_SOFT_RESET: u16 := 0x30A2
  const COMMAND_BREAK: u16 := 0x3093
  const COMMAND_READ_STATUS: u16 := 0xF32D
  const COMMAND_CLEAR_STATUS: u16 := 0x3041
  const COMMAND_PERIODIC_10_H: u16 := 0x2737
  const COMMAND_FETCH_DATA: u16 := 0xE000

  const MEASUREMENT_LENGTH: nat := 6

  // ---------------------------------------------------------------------------
  // Commands

  /** `write_command` sends the command big-endian (`WordBytes`), so
      different commands put different bytes on the bus. */
  lemma CommandBytesInjective(a: u16, b: u16)
    requires WordBytes(a) == WordBytes(b)
    ensures a == b
  {
    assert MakeWord(WordBytes(a)[0], WordBytes(a)[1]) == a;
  }

  // ---------------------------------------------------------------------------
  // CRC-8 (polynomial 0x31, initial value 0xFF, most significant bit first)

  const POLYNOMIAL: bv8 := 0x31

  /** One shift of the CRC register; the bit shifted out selects the
      polynomial. */
  function CrcStep(crc: bv8): bv8 {
    if crc & 0x80 != 0 then (crc << 1) ^ POLYNOMIAL else crc << 1
  }

  /** `count` shift steps. */
  function CrcSteps(crc: bv8, count: nat): bv8
    decreases count
  {
    if count == 0 then crc else CrcSteps(CrcStep(crc), count - 1)
  }

  /** Folds one data byte into the register. */
  function CrcByte(crc: bv8, b: byte): bv8 {
    CrcSteps(crc ^ (b as bv8), 8)
  }

  function CrcFrom(crc: bv8, data: seq<byte>): bv8
    decreases |data|
  {
    if |data| == 0 then crc else CrcFrom(CrcByte(crc, data[0]), data[1..])
  }

  /** The Sensirion CRC-8 of a byte string. */
  function Crc8(data: seq<byte>): byte {
    CrcFrom(0xFF, data) as int
  }

  /** `calc_crc8`, the loop of the source: xor each byte in, then shift eight
      times. */
  method CalcCrc8(data: seq<byte>) returns (crc: byte)
    ensures crc == Crc8(data)
  {
    var register: bv8 := 0xFF;
    for i := 0 to |data|
      invariant register == CrcFrom(0xFF, data[..i])
    {
      register := register ^ (data[i] as bv8);
      ghost var start := register;
      for j := 0 to 8
        invariant CrcSteps(register, 8 - j) == CrcSteps(start, 8)
      {
        register := CrcStep(register);
      }
      CrcFromAppend(0xFF, data[..i], data[i]);
      assert data[..i + 1] == data[..i] + [data[i]];
    }
    assert data[..|data|] == data;
    crc := register as int;
  }

  /** Folding a byte string and then one more byte is folding the longer string. */
  lemma {:induction false} CrcFromAppend(crc: bv8, data: seq<byte>, b: byte)
    ensures CrcFrom(crc, data + [b]) == CrcByte(CrcFrom(crc, data), b)
    decreases |data|
  {
    if |data| > 0 {
      assert (data + [b])[1..] == data[1..] + [b];
      CrcFromAppend(CrcByte(crc, data[0]), data[1..], b);
    }
  }

  /** A zero register stays zero however often it is shifted. */
  lemma {:induction false} CrcStepsOfZero(count: nat)
    ensures CrcSteps(0, count) == 0
    decreases count
  {
    if count > 0 {
      assert CrcStep(0) == 0;
      CrcStepsOfZero(count - 1);
    }
  }

  /** Folding the register's own value into it clears it. */
  lemma CrcByteOfItself(c: bv8)
    ensures CrcByte(c, c as int) == 0
  {
    var x: byte := c as int;
    assert c ^ (x as bv8) == 0;
    CrcStepsOfZero(8);
  }

  /** Appending the CRC of a string to it gives a string whose CRC is zero:
      the property the sensor's checksum byte is built on. */
  lemma CrcOfAppendedCrcIsZero(data: seq<byte>)
    ensures Crc8(data + [Crc8(data)]) == 0
  {
    var c := CrcFrom(0xFF, data);
    CrcFromAppend(0xFF, data, Crc8(data));
    CrcByteOfItself(c);
  }

  /** The empty string leaves the initial value; 0xBE 0xEF gives 0x92, the
      reference value of the sensor's data sheet. */
  lemma CrcReferenceValues()
    ensures Crc8([]) == 0xFF
    ensures Crc8([0xBE, 0xEF]) == 0x92
  {
    assert CrcByte(0xFF, 0xBE) == 0x0C;
    assert CrcByte(0x0C, 0xEF) == 0x92;
    assert [0xBE, 0xEF][1..] == [0xEF];
  }

  // ---------------------------------------------------------------------------
  // Measurement

  /** `sht30_data_t`, with the two floats as exact reals. */
  datatype ShtData = ShtData(temperature: real, humidity: real)

  const ZERO: ShtData := ShtData(0.0, 0.0)

  /** The outcome of `read_command(SHT30_COMMAND_FETCH_DATA, ...)`: the error
      of the command write or of the six-byte read, or the six bytes. */
  datatype Fetch = FetchFailed(code: int) | Fetched(bytes: seq<byte>)

  predicate WellFormedFetch(fetch: Fetch) {
    match fetch
    case FetchFailed(code) => code != ESP_OK
    case Fetched(bytes) => |bytes| == MEASUREMENT_LENGTH
  }

  datatype ShtReading = ShtReading(status: int, data: ShtData)

  /** Degrees Celsius from the raw temperature word. */
  function Temperature(raw: u16): (t: real)
    ensures -45.0 <= t <= 130.0
    ensures raw == 0 ==> t == -45.0
    ensures raw == 0xFFFF ==> t == 130.0
  {
    175.0 * (raw as real) / 65535.0 - 45.0
  }

  /** Percent relative humidity from the raw humidity word. */
  function Humidity(raw: u16): (h: real)
    ensures 0.0 <= h <= 100.0
    ensures raw == 0 ==> h == 0.0
    ensures raw == 0xFFFF ==> h == 100.0
  {
    100.0 * ((raw as real) / 65535.0)
  }

  /** A higher raw word is a higher reading. */
  lemma ConversionsMonotone(a: u16, b: u16)
    requires a < b
    ensures Temperature(a) < Temperature(b)
    ensures Humidity(a) < Humidity(b)
  {
  }

  /** `airshift_sht30_get`: the output is zeroed first; a failed fetch
      returns its error; the temperature CRC is checked before the humidity
      CRC and either mismatch fails with ESP_FAIL; only then are the words
      converted. */
  function Get(fetch: Fetch): (r: ShtReading)
    requires WellFormedFetch(fetch)
    ensures r.status != ESP_OK ==> r.data == ZERO
    ensures fetch.FetchFailed? ==> r.status == fetch.code
    ensures r.status == ESP_OK <==>
      && fetch.Fetched?
      && Crc8(fetch.bytes[0..2]) == fetch.bytes[2]
      && Crc8(fetch.bytes[3..5]) == fetch.bytes[5]
    ensures fetch.Fetched? && r.status != ESP_OK ==> r.status == ESP_FAIL
    ensures r.status == ESP_OK ==>
      && r.data.temperature == Temperature(MakeWord(fetch.bytes[0], fetch.bytes[1]))
      && r.data.humidity == Humidity(MakeWord(fetch.bytes[3], fetch.bytes[4]))
  {
    match fetch
    case FetchFailed(code) => ShtReading(code, ZERO)
    case Fetched(b) =>
      if Crc8(b[0..2]) != b[2] then ShtReading(ESP_FAIL, ZERO)
      else if Crc8(b[3..5]) != b[5] then ShtReading(ESP_FAIL, ZERO)
      else ShtReading(ESP_OK, ShtData(Temperature(MakeWord(b[0], b[1])), Humidity(MakeWord(b[3], b[4]))))
  }

  /** A measurement as the sensor sends it: each word big-endian followed by
      its CRC. */
  function EncodeMeasurement(temperatureRaw: u16, humidityRaw: u16): (bytes: seq<byte>)
    ensures |bytes| == MEASUREMENT_LENGTH
  {
    var t := WordBytes(temperatureRaw);
    var h := WordBytes(humidityRaw);
    t + [Crc8(t)] + h + [Crc8(h)]
  }

  /** A measurement as the sensor sends it passes both checks and converts
      the words it carries. */
  lemma MeasurementRoundTrip(temperatureRaw: u16, humidityRaw: u16)
    ensures var r := Get(Fetched(EncodeMeasurement(temperatureRaw, humidityRaw)));
      && r.status == ESP_OK
      && r.data == ShtData(Temperature(temperatureRaw), Humidity(humidityRaw))
  {
    var t := WordBytes(temperatureRaw);
    var h := WordBytes(humidityRaw);
    var b := EncodeMeasurement(temperatureRaw, humidityRaw);
    assert b[0..2] == t && b[2] == Crc8(t);
    assert b[3..5] == h && b[5] == Crc8(h);
  }

  /** A bad temperature CRC fails the read with ESP_FAIL and the zeroed
      record, whatever the humidity half holds. */
  lemma TemperatureCheckedFirst(a: seq<byte>, b: seq<byte>)
    requires |a| == MEASUREMENT_LENGTH && |b| == MEASUREMENT_LENGTH
    requires a[..3] == b[..3] && Crc8(a[0..2]) != a[2]
    ensures Get(Fetched(a)) == Get(Fetched(b)) == ShtReading(ESP_FAIL, ZERO)
  {
    assert a[0..2] == b[0..2] && a[2] == b[2];
  }

  /** The CRC bytes only gate the conversion: two accepted measurements with
      the same data words give the same reading. */
  lemma CrcBytesDoNotFeedConversion(a: seq<byte>, b: seq<byte>)
    requires |a| == MEASUREMENT_LENGTH && |b| == MEASUREMENT_LENGTH
    requires Get(Fetched(a)).status == ESP_OK && Get(Fetched(b)).status == ESP_OK
    requires a[0] == b[0] && a[1] == b[1] && a[3] == b[3] && a[4] == b[4]
    ensures Get(Fetched(a)) == Get(Fetched(b))
  {
  }
}
