/** The shared helpers of airshift_common: 16-bit words from byte pairs, the
    seconds-to-microseconds conversion used for timers, and the hex rendering
    of the station MAC address that becomes the telemetry client id. */
module Common {
  import opened Results

  type byte = x: int | 0 <= x < 0x100
  type u16 = x: int | 0 <= x < 0x1_0000
  type u32 = x: int | 0 <= x < 0x1_0000_0000
  type u64 = x: int | 0 <= x < 0x1_0000_0000_0000_0000

  /** ESP_OK and ESP_FAIL of the ESP-IDF error type. */
  const ESP_OK: int := 0
  const ESP_FAIL: int := -1

  // ---------------------------------------------------------------------------
  // Serial reads

  /** The outcome of `uart_read_bytes`: an error (-1) or the bytes that
      arrived before the timeout, possibly none. */
  datatype UartRead = ReadError | Received(bytes: seq<byte>)

  /** The value `uart_read_bytes` returns. */
  function BytesRead(read: UartRead): (n: int)
    ensures n <= 0 <==> read.ReadError? || |read.bytes| == 0
  {
    if read.ReadError? then -1 else |read.bytes|
  }

  // ---------------------------------------------------------------------------
  // Words

  /** Bitwise or of two naturals, bit by bit from the least significant end. */
  function BitOr(a: nat, b: nat): nat
  {
    if a == 0 then b
    else if b == 0 then a
    else 2 * BitOr(a / 2, b / 2) + (if a % 2 == 1 || b % 2 == 1 then 1 else 0)
  }

  function Pow2(k: nat): (p: nat)
    ensures p >= 1
  {
    if k == 0 then 1 else 2 * Pow2(k - 1)
  }

  /** Or-ing a value into the zero low bits of a shifted value is addition. */
  lemma {:induction false} BitOrDisjoint(x: nat, k: nat, l: nat)
    requires l < Pow2(k)
    ensures BitOr(x * Pow2(k), l) == x * Pow2(k) + l
  {
    if k == 0 {
      assert l == 0;
    } else if x == 0 || l == 0 {
    } else {
      var p := Pow2(k - 1);
      assert x * Pow2(k) == 2 * (x * p);
      assert (x * Pow2(k)) / 2 == x * p;
      assert (x * Pow2(k)) % 2 == 0;
      BitOrDisjoint(x, k - 1, l / 2);
      assert BitOr(x * Pow2(k), l) == 2 * BitOr(x * p, l / 2) + l % 2;
    }
  }

  /** `airshift_make_word`: `(h << 8) | l` evaluated on the promoted operands
      and truncated to the 16-bit return type. */
  function MakeWord(h: byte, l: byte): (w: u16)
    ensures w == h * 256 + l
  {
    assert Pow2(8) == 256;
    BitOrDisjoint(h, 8, l);
    BitOr(h * Pow2(8), l) % 0x1_0000
  }

  /** The high byte of a word, `w >> 8`. */
  function HighByte(w: u16): byte
  {
    w / 256
  }

  /** The low byte of a word, the truncating cast `(uint8_t)w`. */
  function LowByte(w: u16): byte
  {
    w % 256
  }

  /** Splitting a word and joining the halves gives the word back, and a
      joined word splits into the bytes it was made of. */
  lemma WordRoundTrip(w: u16, h: byte, l: byte)
    ensures MakeWord(HighByte(w), LowByte(w)) == w
    ensures HighByte(MakeWord(h, l)) == h && LowByte(MakeWord(h, l)) == l
  {
  }

  /** A word on the wire, big-endian: `w >> 8`, then the truncating cast
      `(uint8_t)w`. */
  function WordBytes(w: u16): (b: seq<byte>)
    ensures |b| == 2 && MakeWord(b[0], b[1]) == w
  {
    [HighByte(w), LowByte(w)]
  }

  // ---------------------------------------------------------------------------
  // Time

  /** `seconds_to_microseconds`: the product is formed in 64-bit arithmetic;
      for every 32-bit input it never wraps. */
  function SecondsToMicroseconds(seconds: u32): (us: u64)
    ensures us == seconds * 1_000_000
    ensures us / 1_000_000 == seconds
  {
    (seconds * 1000 * 1000) % 0x1_0000_0000_0000_0000
  }

  // ---------------------------------------------------------------------------
  // Hex rendering ("%02X")

  /** The characters "%X" writes: decimal digits and upper-case A to F. */
  predicate IsHexDigit(c: char) {
    '0' <= c <= '9' || 'A' <= c <= 'F'
  }

  /** The upper-case hex digit of a nibble. */
  function HexDigit(v: int): (c: char)
    requires 0 <= v < 16
    ensures IsHexDigit(c)
    ensures v < 10 <==> c <= '9'
  {
    if v < 10 then ('0' as int + v) as char else ('A' as int + (v - 10)) as char
  }

  /** The nibble an upper-case hex digit stands for; lower-case and other
      characters are not produced by "%X" and are rejected. */
  function HexValue(c: char): (r: Option<int>)
    ensures r.Some? <==> IsHexDigit(c)
    ensures r.Some? ==> 0 <= r.value < 16 && HexDigit(r.value) == c
  {
    if '0' <= c <= '9' then Some(c as int - '0' as int)
    else if 'A' <= c <= 'F' then Some(c as int - 'A' as int + 10)
    else None
  }

  /** "%02X" of one byte: two upper-case digits, high nibble first. */
  function ByteHex(b: byte): (s: string)
    ensures |s| == 2 && IsHexDigit(s[0]) && IsHexDigit(s[1])
    ensures HexValue(s[0]) == Some(b / 16) && HexValue(s[1]) == Some(b % 16)
  {
    [HexDigit(b / 16), HexDigit(b % 16)]
  }

  /** The bytes written back to back as "%02X" groups, as in the format
      string "%02X%02X%02X%02X%02X%02X". */
  function HexString(bytes: seq<byte>): (s: string)
    ensures |s| == 2 * |bytes|
    ensures forall k :: 0 <= k < |bytes| ==>
      s[2 * k] == HexDigit(bytes[k] / 16) && s[2 * k + 1] == HexDigit(bytes[k] % 16)
    ensures forall k :: 0 <= k < |s| ==> IsHexDigit(s[k])
  {
    if |bytes| == 0 then ""
    else ByteHex(bytes[0]) + HexString(bytes[1..])
  }

  /** Reads back a string of "%02X" groups; None when a character is not an
      upper-case hex digit or the length is odd. */
  function ParseHex(s: string): (r: Option<seq<byte>>)
    ensures r.Some? ==> 2 * |r.value| == |s|
    decreases |s|
  {
    if |s| == 0 then Some([])
    else if |s| == 1 then None
    else
      var hi, lo, rest := HexValue(s[0]), HexValue(s[1]), ParseHex(s[2..]);
      if hi.Some? && lo.Some? && rest.Some? then Some([hi.value * 16 + lo.value] + rest.value)
      else None
  }

  /** Parsing one "%02X" group in front of a parsable rest. */
  lemma ParseHexGroup(b: byte, rest: string, tail: seq<byte>)
    requires ParseHex(rest) == Some(tail)
    ensures ParseHex(ByteHex(b) + rest) == Some([b] + tail)
  {
    var g := ByteHex(b);
    var s := g + rest;
    assert s[0] == g[0] && s[1] == g[1] && s[2..] == rest;
    var hi, lo := HexValue(s[0]), HexValue(s[1]);
    assert hi == Some(b / 16) && lo == Some(b % 16);
    assert hi.value * 16 + lo.value == b;
  }

  /** The hex rendering loses nothing: parsing it returns the bytes. */
  lemma {:induction false} HexRoundTrip(bytes: seq<byte>)
    ensures ParseHex(HexString(bytes)) == Some(bytes)
  {
    if |bytes| > 0 {
      HexRoundTrip(bytes[1..]);
      ParseHexGroup(bytes[0], HexString(bytes[1..]), bytes[1..]);
      assert [bytes[0]] + bytes[1..] == bytes;
    }
  }

  /** Two byte strings with the same rendering are equal. */
  lemma HexInjective(a: seq<byte>, b: seq<byte>)
    requires HexString(a) == HexString(b)
    ensures a == b
  {
    HexRoundTrip(a);
    HexRoundTrip(b);
  }

  // ---------------------------------------------------------------------------
  // MAC address

  const MAC_LENGTH: nat := 6

  /** The delimited format "%02X%s%02X%s%02X%s%02X%s%02X%s%02X": six groups
      with the delimiter between consecutive groups. */
  function MacHexDelimited(mac: seq<byte>, delimiter: string): (s: string)
    requires |mac| == MAC_LENGTH
  {
    ByteHex(mac[0]) + delimiter + (ByteHex(mac[1]) + delimiter + (ByteHex(mac[2]) + delimiter
    + (ByteHex(mac[3]) + delimiter + (ByteHex(mac[4]) + delimiter + ByteHex(mac[5])))))
  }

  /** Strings joined with a separator between consecutive items. */
  function Join(items: seq<string>, separator: string): string
  {
    if |items| == 0 then ""
    else if |items| == 1 then items[0]
    else items[0] + separator + Join(items[1..], separator)
  }

  /** The "%02X" group of every byte, in byte order. */
  function Groups(bytes: seq<byte>): (gs: seq<string>)
    ensures |gs| == |bytes|
    ensures forall k :: 0 <= k < |bytes| ==> gs[k] == ByteHex(bytes[k])
  {
    seq(|bytes|, k requires 0 <= k < |bytes| => ByteHex(bytes[k]))
  }

  /** The delimited format is the six byte groups joined by the delimiter,
      so it is 12 + 5 * |d| characters long. */
  lemma {:induction false} MacDelimitedIsJoin(mac: seq<byte>, d: string)
    requires |mac| == MAC_LENGTH
    ensures MacHexDelimited(mac, d) == Join(Groups(mac), d)
    ensures |MacHexDelimited(mac, d)| == 12 + 5 * |d|
  {
    var gs := Groups(mac);
    var r5 := gs[5];
    var r4 := gs[4] + d + r5;
    var r3 := gs[3] + d + r4;
    var r2 := gs[2] + d + r3;
    var r1 := gs[1] + d + r2;
    var r0 := gs[0] + d + r1;
    assert gs[4..][1..] == gs[5..];
    assert gs[3..][1..] == gs[4..];
    assert gs[2..][1..] == gs[3..];
    assert gs[1..][1..] == gs[2..];
    assert Join(gs[5..], d) == r5;
    assert Join(gs[4..], d) == r4;
    assert Join(gs[3..], d) == r3;
    assert Join(gs[2..], d) == r2;
    assert Join(gs[1..], d) == r1;
    assert Join(gs, d) == r0;
  }

  /** Joining the groups without a separator is the undelimited rendering. */
  lemma {:induction false} JoinEmptyIsHexString(bytes: seq<byte>)
    ensures Join(Groups(bytes), "") == HexString(bytes)
  {
    if |bytes| > 1 {
      assert Groups(bytes)[1..] == Groups(bytes[1..]);
      JoinEmptyIsHexString(bytes[1..]);
    } else if |bytes| == 1 {
      assert HexString(bytes[1..]) == "";
    }
  }

  /** An empty delimiter gives the undelimited rendering. */
  lemma MacEmptyDelimiter(mac: seq<byte>)
    requires |mac| == MAC_LENGTH
    ensures MacHexDelimited(mac, "") == HexString(mac)
  {
    MacDelimitedIsJoin(mac, "");
    JoinEmptyIsHexString(mac);
  }

  /** The result of `esp_read_mac`. */
  datatype MacRead = MacReadFailed(code: int) | MacBytes(mac: seq<byte>)

  /** `airshift_get_mac_address`: fails with ESP_FAIL for a NULL destination
      before reading anything, propagates the read error, and otherwise
      renders the six bytes with or without the delimiter. */
  function GetMacAddress(hasDestination: bool, read: MacRead, delimiter: Option<string>): (r: Result<string, int>)
    requires read.MacReadFailed? ==> read.code != ESP_OK
    requires read.MacBytes? ==> |read.mac| == MAC_LENGTH
    ensures !hasDestination ==> r == Err(ESP_FAIL)
    ensures hasDestination && read.MacReadFailed? ==> r == Err(read.code)
    ensures r.Ok? <==> hasDestination && read.MacBytes?
    ensures r.Ok? && delimiter.None? ==>
      |r.value| == 12 && ParseHex(r.value) == Some(read.mac)
      && forall k :: 0 <= k < |r.value| ==> IsHexDigit(r.value[k])
    ensures r.Ok? && delimiter.Some? ==>
      r.value == Join(Groups(read.mac), delimiter.value) && |r.value| == 12 + 5 * |delimiter.value|
  {
    if !hasDestination then Err(ESP_FAIL)
    else match read
      case MacReadFailed(code) => Err(code)
      case MacBytes(mac) =>
        match delimiter
        case Some(d) =>
          MacDelimitedIsJoin(mac, d);
          Ok(MacHexDelimited(mac, d))
        case None =>
          HexRoundTrip(mac);
          var s := HexString(mac);
          Ok(s)
  }
}
